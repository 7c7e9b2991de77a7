/** The message object, the reply loop over it, and what a whole reply contains. */
module DiamMessage {
  import opened Wrappers
  import opened DiamTree
  import opened DiamBuilder

  /** What a call needs, once its path and its value are accepted. */
  datatype Placement = Placement(entries: seq<DictAvp>, payload: seq<Octet>, newBranch: bool)

  function Lookup(dict: Dictionary, path: seq<string>): (r: Result<seq<DictAvp>, Error>)
    ensures r.Ok? ==> |r.value| == |path|
  {
    if path == [] then Ok([])
    else if path[0] !in dict then Err(UnknownAvp(path[0]))
    else
      match Lookup(dict, path[1..])
      case Err(e) => Err(e)
      case Ok(rest) => Ok([dict[path[0]]] + rest)
  }

  /** Accepts or refuses a path and a value, before the message is touched. */
  function Prepare(dict: Dictionary, encode: Encoder, path: seq<string>, value: string, newBranch: bool)
    : (r: Result<Placement, Error>)
    ensures r.Ok? ==> r.value.entries != []
  {
    if path == [] then Err(EmptyPath)
    else
      match Lookup(dict, path)
      case Err(e) => Err(e)
      case Ok(entries) =>
        match Last(entries).kind
        case Grouped => Err(LastIsGroup)
        case Scalar(typeId) =>
          match encode(typeId, value)
          case None => Err(BadValue)
          case Some(payload) => Ok(Placement(entries, payload, newBranch))
  }

  /** The codes of the names of a path; names that are not in the dictionary have none. */
  function PathCodes(dict: Dictionary, path: seq<string>): Path {
    if path == [] then []
    else (if path[0] in dict then [dict[path[0]].code] else []) + PathCodes(dict, path[1..])
  }

  /** The last pair found is a leaf with the encoded value, under the code and the vendor of the path's last name. */
  ghost predicate EndsInValue(found: seq<Avp>, dict: Dictionary, encode: Encoder, path: seq<string>, value: string) {
    && found != [] && path != [] && Last(path) in dict
    && var a, entry := Last(found), dict[Last(path)];
       && a.Leaf? && entry.kind.Scalar? && encode(entry.kind.typeId, value) == Some(a.payload)
       && a.code == entry.code && a.vendor == entry.vendor && (a.vbit <==> entry.vendor > 0)
  }

  lemma ValueIsSet(avps: seq<Avp>, dict: Dictionary, encode: Encoder, path: seq<string>, value: string, newBranch: bool)
    requires Prepare(dict, encode, path, value, newBranch).Ok?
    ensures var pl := Prepare(dict, encode, path, value, newBranch).value;
            !Misplaces(avps, PathCodes(dict, path), newBranch) ==>
              EndsInValue(Find(Apply(avps, pl), PathCodes(dict, path)), dict, encode, path, value)
  {
    hide Placed, Lookup, Find, Misplaces, PathCodes, Codes;
    var pl := Prepare(dict, encode, path, value, newBranch).value;
    LookupAt(dict, path, |path| - 1);
    LookupCodes(dict, path);
    ReadBack(avps, pl.entries, pl.payload, newBranch);
  }

  lemma {:induction false} LookupCodes(dict: Dictionary, path: seq<string>)
    requires Lookup(dict, path).Ok?
    ensures Codes(Lookup(dict, path).value) == PathCodes(dict, path)
  {
    if path != [] {
      LookupCodes(dict, path[1..]);
    }
  }

  function Apply(avps: seq<Avp>, pl: Placement): seq<Avp>
    requires pl.entries != []
  {
    Placed(avps, pl.entries, pl.payload, pl.newBranch)
  }

  function ApplyLength(messageLength: nat, avps: seq<Avp>, pl: Placement): nat
    requires pl.entries != []
  {
    PlacedLength(messageLength, avps, pl.entries, pl.payload, pl.newBranch)
  }

  /** An entry of the reply's navigable map. */
  datatype Item =
    | Unreadable
    | NotAnItem
    | Nothing
    | Item(path: seq<string>, value: string, newBranch: bool)

  datatype ReplyError = NoField | NoItem | NotSet(path: seq<string>, error: Error)

  datatype Plan = Plan(placements: seq<Placement>, error: Option<ReplyError>)

  /** The placements an item list makes before its first failure, and that failure. */
  function PlanFor(dict: Dictionary, encode: Encoder, items: seq<Item>): (p: Plan)
    ensures forall pl :: pl in p.placements ==> pl.entries != []
  {
    if items == [] then Plan([], None)
    else
      match items[0]
      case Unreadable => Plan([], Some(NoField))
      case NotAnItem => Plan([], Some(NoItem))
      case Nothing => PlanFor(dict, encode, items[1..])
      case Item(path, value, newBranch) =>
        match Prepare(dict, encode, path, value, newBranch)
        case Err(e) => Plan([], Some(NotSet(path, e)))
        case Ok(pl) =>
          var rest := PlanFor(dict, encode, items[1..]);
          Plan([pl] + rest.placements, rest.error)
  }

  function ApplyAll(avps: seq<Avp>, pls: seq<Placement>): seq<Avp>
    requires forall pl :: pl in pls ==> pl.entries != []
    decreases |pls|
  {
    if pls == [] then avps else ApplyAll(Apply(avps, pls[0]), pls[1..])
  }

  class Message {
    var messageLength: nat
    var avps: seq<Avp>

    /** A fresh answer: a header and no pairs. */
    constructor ()
      ensures avps == [] && messageLength == HEADER_LENGTH
      ensures LengthMatches(messageLength, avps)
    {
      messageLength, avps := HEADER_LENGTH, [];
    }

    /** The dictionary entries of a path. */
    static method FindEntries(dict: Dictionary, path: seq<string>) returns (r: Result<seq<DictAvp>, Error>)
      ensures r == Lookup(dict, path)
    {
      var entries := [];
      assert path[0..] == path;
      assert forall rest: seq<DictAvp> :: entries + rest == rest;
      for i := 0 to |path|
        invariant |entries| == i
        invariant Lookup(dict, path) ==
                  match Lookup(dict, path[i..]) case Err(e) => Err(e) case Ok(rest) => Ok(entries + rest)
      {
        assert path[i..][1..] == path[i + 1..];
        if path[i] !in dict {
          return Err(UnknownAvp(path[i]));
        }
        ghost var before := entries;
        entries := entries + [dict[path[i]]];
        assert forall rest :: before + ([dict[path[i]]] + rest) == entries + rest;
      }
      assert path[|path|..] == [] && entries + [] == entries;
      return Ok(entries);
    }

    /** Builds the branch from its leaf up, and attaches it at the first group that is already there. */
    method Place(entries: seq<DictAvp>, payload: seq<Octet>, newBranch: bool)
      requires entries != []
      modifies this
      ensures avps == Placed(old(avps), entries, payload, newBranch)
      ensures messageLength == PlacedLength(old(messageLength), old(avps), entries, payload, newBranch)
    {
      hide Find, ReplaceLast, Len, LenAll, Deepest, Codes, AppendAt;
      var codes := Codes(entries);
      var i := |entries| - 1;
      var msgAvp := NewLeaf(entries[i], payload);
      assert entries[i..] == [entries[i]];
      while i > 0
        invariant 0 <= i < |entries|
        invariant avps == old(avps) && messageLength == old(messageLength)
        invariant msgAvp == Chain(entries[i..], payload)
        invariant !newBranch ==> forall j :: i < j < |entries| ==> !IsShareable(avps, codes[..j])
      {
        if !newBranch {
          var found := Find(avps, codes[..i]);
          if found != [] && Last(found).Group? {
            assert IsShareable(avps, codes[..i]);
            DeepestIs(avps, codes, i);
            avps := AppendAt(avps, codes[..i], msgAvp);
            messageLength := (messageLength + Len(msgAvp)) % UINT32;
            return;
          }
        }
        i := i - 1;
        assert entries[i..][1..] == entries[i + 1..];
        msgAvp := NewGroup(entries[i], [msgAvp]);
      }
      assert entries[0..] == entries;
      if !newBranch {
        DeepestIs(avps, codes, 0);
        var found := Find(avps, codes);
        if found != [] {
          messageLength := (messageLength - Len(Last(found))) % UINT32;
          avps := ReplaceLast(avps, codes, msgAvp);
          messageLength := (messageLength + Len(msgAvp)) % UINT32;
          return;
        }
      }
      avps := avps + [msgAvp];
      messageLength := (messageLength + Len(msgAvp)) % UINT32;
    }

    /** Sets a value at a path; a refused call leaves the message as it was. */
    method SetAvpsWithPath(dict: Dictionary, encode: Encoder, path: seq<string>, value: string, newBranch: bool)
      returns (err: Option<Error>)
      modifies this
      ensures match Prepare(dict, encode, path, value, newBranch)
              case Err(e) => err == Some(e) && avps == old(avps) && messageLength == old(messageLength)
              case Ok(pl) =>
                && err == None
                && avps == Apply(old(avps), pl)
                && messageLength == ApplyLength(old(messageLength), old(avps), pl)
      ensures err == None && !Misplaces(old(avps), PathCodes(dict, path), newBranch) ==>
                EndsInValue(Find(avps, PathCodes(dict, path)), dict, encode, path, value)
      ensures old(LengthMatches(messageLength, avps)) ==> LengthMatches(messageLength, avps)
    {
      hide Placed, PlacedLength, LengthMatches, Lookup, Find, Misplaces, PathCodes, EndsInValue;
      if path == [] {
        return Some(EmptyPath);
      }
      var looked := FindEntries(dict, path);
      if looked.Err? {
        return Some(looked.error);
      }
      var entries := looked.value;
      var last := entries[|entries| - 1];
      if last.kind == Grouped {
        return Some(LastIsGroup);
      }
      var encoded := encode(last.kind.typeId, value);
      if encoded == None {
        return Some(BadValue);
      }
      if LengthMatches(messageLength, avps) {
        LengthIsKept(messageLength, avps, entries, encoded.value, newBranch);
      }
      ValueIsSet(avps, dict, encode, path, value, newBranch);
      Place(entries, encoded.value, newBranch);
      return None;
    }

    /** Writes a reply's items in order; the pairs set before a failure stay. */
    method UpdateFromItems(dict: Dictionary, encode: Encoder, items: seq<Item>) returns (err: Option<ReplyError>)
      modifies this
      ensures var plan := PlanFor(dict, encode, items);
              err == plan.error && avps == ApplyAll(old(avps), plan.placements)
      ensures old(LengthMatches(messageLength, avps)) ==> LengthMatches(messageLength, avps)
    {
      hide Prepare, Placed, PlacedLength, LengthMatches;
      ghost var plan := PlanFor(dict, encode, items);
      var n := 0;
      while n < |items|
        invariant 0 <= n <= |items|
        invariant var rest := PlanFor(dict, encode, items[n..]);
                  plan.error == rest.error
                  && ApplyAll(old(avps), plan.placements) == ApplyAll(avps, rest.placements)
        invariant old(LengthMatches(messageLength, avps)) ==> LengthMatches(messageLength, avps)
      {
        assert items[n..][1..] == items[n + 1..];
        match items[n] {
          case Unreadable => return Some(NoField);
          case NotAnItem => return Some(NoItem);
          case Nothing =>
          case Item(path, value, newBranch) =>
            var e := SetAvpsWithPath(dict, encode, path, value, newBranch);
            if e.Some? {
              return Some(NotSet(path, e.value));
            }
            ghost var rest := PlanFor(dict, encode, items[n..]);
            assert rest.placements[1..] == PlanFor(dict, encode, items[n + 1..]).placements;
        }
        n := n + 1;
      }
      return None;
    }
  }

  lemma DeepestIs(avps: seq<Avp>, path: Path, i: nat)
    requires i < |path| && (i > 0 ==> IsShareable(avps, path[..i]))
    requires forall j :: i < j < |path| ==> !IsShareable(avps, path[..j])
    ensures Deepest(avps, path, |path| - 1) == i
  {
    hide IsShareable;
    DeepestIsDeepest(avps, path, |path| - 1);
  }

  // ----- messages that follow the dictionary

  /** Pairs with a code in `groups` are groups, all others are not. */
  ghost predicate TypedAvp(a: Avp, groups: set<nat>) {
    && (a.Group? <==> a.code in groups)
    && (a.Group? ==> forall x :: x in a.avps ==> TypedAvp(x, groups))
  }

  ghost predicate Typed(avps: seq<Avp>, groups: set<nat>) {
    forall a :: a in avps ==> TypedAvp(a, groups)
  }

  /** The inner names of the path are groups; the last one is not. */
  ghost predicate TypedPlacement(pl: Placement, groups: set<nat>) {
    && pl.entries != []
    && Last(pl.entries).code !in groups
    && forall i :: 0 <= i < |pl.entries| - 1 ==> pl.entries[i].code in groups
  }

  lemma {:induction false} TypedFind(avps: seq<Avp>, p: Path, groups: set<nat>)
    requires p != [] && Typed(avps, groups)
    ensures Typed(Find(avps, p), groups)
    decreases |p|, |avps|
  {
    if avps != [] {
      TypedFind(avps[1..], p, groups);
      var a := avps[0];
      assert TypedAvp(a, groups);
      if a.code == p[0] && |p| > 1 && a.Group? {
        TypedFind(a.avps, p[1..], groups);
      }
    }
  }

  lemma {:induction false} TypedReplace(avps: seq<Avp>, p: Path, y: Avp, groups: set<nat>)
    requires p != [] && Find(avps, p) != [] && Typed(avps, groups) && TypedAvp(y, groups)
    ensures Typed(ReplaceLast(avps, p, y), groups)
    decreases |p|, |avps|
  {
    hide Find;
    FindSnoc(avps, p);
    var init, last := Init(avps), Last(avps);
    assert TypedAvp(last, groups);
    if FindIn(last, p) != [] {
      if |p| > 1 {
        TypedReplace(last.avps, p[1..], y, groups);
      }
    } else {
      TypedReplace(init, p, y, groups);
    }
  }

  lemma {:induction false} TypedChain(entries: seq<DictAvp>, payload: seq<Octet>, groups: set<nat>)
    requires entries != [] && Last(entries).code !in groups
    requires forall i :: 0 <= i < |entries| - 1 ==> entries[i].code in groups
    ensures TypedAvp(Chain(entries, payload), groups)
    decreases |entries|
  {
    if |entries| > 1 {
      TypedChain(entries[1..], payload, groups);
    }
  }

  /** A search that finds something has found something at every prefix. */
  lemma FoundAbove(avps: seq<Avp>, p: Path, i: nat)
    requires 0 < i < |p| && Find(avps, p) != []
    ensures Find(avps, p[..i]) != []
  {
    hide Find;
    assert p == p[..i] + p[i..];
    FindThrough(avps, p[..i], p[i..]);
  }

  /** In a message that follows the dictionary nothing is misplaced. */
  lemma TypedNeverMisplaces(avps: seq<Avp>, pl: Placement, groups: set<nat>)
    requires Typed(avps, groups) && TypedPlacement(pl, groups)
    ensures !Misplaces(avps, Codes(pl.entries), pl.newBranch)
  {
    hide Find, Codes;
    var p := Codes(pl.entries);
    if |p| > 1 && Find(avps, p) != [] {
      var i := |p| - 1;
      FoundAbove(avps, p, i);
      TypedFind(avps, p[..i], groups);
      FoundCode(avps, p[..i]);
      CodesAt(pl.entries, i - 1);
      var g := Last(Find(avps, p[..i]));
      assert TypedAvp(g, groups) && g.code in groups;
      assert IsShareable(avps, p[..i]);
    }
  }

  /** A placement keeps a message within the dictionary. */
  lemma TypedApply(avps: seq<Avp>, pl: Placement, groups: set<nat>)
    requires Typed(avps, groups) && TypedPlacement(pl, groups)
    ensures Typed(Apply(avps, pl), groups)
  {
    hide Find, ReplaceLast, Chain, Codes, Deepest;
    var p := Codes(pl.entries);
    match Decide(avps, p, pl.newBranch) {
      case Shared(d) =>
        var tail := pl.entries[d..];
        assert Last(tail) == Last(pl.entries);
        TypedChain(tail, pl.payload, groups);
        TypedFind(avps, p[..d], groups);
        var g := Last(Find(avps, p[..d]));
        assert TypedAvp(g, groups);
        var y := g.(avps := g.avps + [Chain(tail, pl.payload)]);
        assert TypedAvp(y, groups);
        TypedReplace(avps, p[..d], y, groups);
      case Overwritten =>
        TypedChain(pl.entries, pl.payload, groups);
        TypedReplace(avps, p, Chain(pl.entries, pl.payload), groups);
      case NewTop =>
        TypedChain(pl.entries, pl.payload, groups);
    }
  }

  /** One placement in a message that follows the dictionary, seen along any path that it does not extend. */
  lemma TypedStep(avps: seq<Avp>, pl: Placement, groups: set<nat>, q: Path)
    requires Typed(avps, groups) && TypedPlacement(pl, groups) && q != []
    requires q <= Codes(pl.entries) ==> q == Codes(pl.entries)
    requires q == Codes(pl.entries) ==> |q| > 1 || pl.newBranch
    ensures Find(Apply(avps, pl), q) ==
            Find(avps, q) + if q == Codes(pl.entries) then [TheLeaf(pl.entries, pl.payload)] else []
  {
    hide Find, Placed, Codes, Misplaces, Deepest;
    var p := Codes(pl.entries);
    TypedNeverMisplaces(avps, pl, groups);
    if q == p {
      ReadBack(avps, pl.entries, pl.payload, pl.newBranch);
    } else {
      Frame(avps, pl.entries, pl.payload, pl.newBranch, q);
      if Decide(avps, p, pl.newBranch).Overwritten? && p <= q {
        MisplacesIsOverwrite(avps, p, pl.newBranch);
        TypedFind(avps, p, groups);
        FoundCode(avps, p);
        CodesAt(pl.entries, |p| - 1);
        assert TypedAvp(Last(Find(avps, p)), groups);
      }
    }
  }

  /** The leaves that a list of placements puts at a path, in order. */
  function LeavesAt(pls: seq<Placement>, q: Path): seq<Avp>
    requires forall pl :: pl in pls ==> pl.entries != []
  {
    if pls == [] then []
    else
      (if Codes(pls[0].entries) == q then [TheLeaf(pls[0].entries, pls[0].payload)] else [])
      + LeavesAt(pls[1..], q)
  }

  /**
   A whole reply: along a path that no placement extends, and at which none overwrites,
   the message holds what it held before and behind it every value placed there, in order.
   */
  lemma {:induction false} WholeReply(avps: seq<Avp>, pls: seq<Placement>, groups: set<nat>, q: Path)
    requires Typed(avps, groups) && q != []
    requires forall pl :: pl in pls ==> pl.entries != [] && TypedPlacement(pl, groups)
    requires forall pl :: pl in pls && q <= Codes(pl.entries) ==> q == Codes(pl.entries) && (|q| > 1 || pl.newBranch)
    ensures Typed(ApplyAll(avps, pls), groups)
    ensures Find(ApplyAll(avps, pls), q) == Find(avps, q) + LeavesAt(pls, q)
    decreases |pls|
  {
    hide Find, Apply, Codes;
    if pls != [] {
      var pl := pls[0];
      assert pl in pls;
      TypedApply(avps, pl, groups);
      TypedStep(avps, pl, groups, q);
      WholeReply(Apply(avps, pl), pls[1..], groups, q);
    }
  }

  // ----- replies built from items

  /** The codes of `groups` are those of the dictionary's groups. */
  ghost predicate GroupsOf(dict: Dictionary, groups: set<nat>) {
    forall name :: name in dict ==> (dict[name].kind.Grouped? <==> dict[name].code in groups)
  }

  /** The names before the last one are those of groups. */
  ghost predicate InnerNamesAreGroups(dict: Dictionary, path: seq<string>) {
    forall i :: 0 <= i < |path| - 1 && path[i] in dict ==> dict[path[i]].kind.Grouped?
  }

  lemma {:induction false} LookupAt(dict: Dictionary, path: seq<string>, i: nat)
    requires Lookup(dict, path).Ok? && i < |path|
    ensures path[i] in dict && Lookup(dict, path).value[i] == dict[path[i]]
    decreases |path|
  {
    if i > 0 {
      LookupAt(dict, path[1..], i - 1);
    }
  }

  lemma PreparedIsTyped(dict: Dictionary, encode: Encoder, path: seq<string>, value: string, newBranch: bool, groups: set<nat>)
    requires GroupsOf(dict, groups) && InnerNamesAreGroups(dict, path)
    requires Prepare(dict, encode, path, value, newBranch).Ok?
    ensures TypedPlacement(Prepare(dict, encode, path, value, newBranch).value, groups)
  {
    hide Lookup;
    var entries := Lookup(dict, path).value;
    forall i | 0 <= i < |path| ensures path[i] in dict && entries[i] == dict[path[i]] {
      LookupAt(dict, path, i);
    }
  }

  lemma {:induction false} PlanIsTyped(dict: Dictionary, encode: Encoder, items: seq<Item>, groups: set<nat>)
    requires GroupsOf(dict, groups) && forall item :: item in items && item.Item? ==> InnerNamesAreGroups(dict, item.path)
    ensures forall pl :: pl in PlanFor(dict, encode, items).placements ==> TypedPlacement(pl, groups)
    decreases |items|
  {
    hide Prepare, TypedPlacement, GroupsOf, InnerNamesAreGroups;
    if items != [] {
      assert items[0] in items;
      PlanIsTyped(dict, encode, items[1..], groups);
      match items[0]
      case Item(path, value, newBranch) =>
        if Prepare(dict, encode, path, value, newBranch).Ok? {
          PreparedIsTyped(dict, encode, path, value, newBranch, groups);
        }
      case _ =>
    }
  }

  /** What the pairs written for a list of items read, when its paths go through groups of the dictionary. */
  lemma ReplyReadsBack(dict: Dictionary, encode: Encoder, items: seq<Item>, avps: seq<Avp>, groups: set<nat>, q: Path)
    requires GroupsOf(dict, groups) && forall item :: item in items && item.Item? ==> InnerNamesAreGroups(dict, item.path)
    requires Typed(avps, groups) && q != []
    requires forall pl :: pl in PlanFor(dict, encode, items).placements && q <= Codes(pl.entries) ==>
                            q == Codes(pl.entries) && (|q| > 1 || pl.newBranch)
    ensures var pls := PlanFor(dict, encode, items).placements;
            Find(ApplyAll(avps, pls), q) == Find(avps, q) + LeavesAt(pls, q)
  {
    hide PlanFor, TypedPlacement, Typed, Codes, ApplyAll, Find, LeavesAt;
    PlanIsTyped(dict, encode, items, groups);
    WholeReply(avps, PlanFor(dict, encode, items).placements, groups, q);
  }

  /** A code that some path goes through. */
  ghost predicate IsInner(pls: seq<Placement>, code: nat) {
    exists pl, i :: pl in pls && 0 <= i < |pl.entries| - 1 && pl.entries[i].code == code
  }

  ghost function InnerCodes(pls: seq<Placement>): set<nat>
    ensures forall code :: code in InnerCodes(pls) <==> IsInner(pls, code)
  {
    set pl, i | pl in pls && 0 <= i < |pl.entries| - 1 :: pl.entries[i].code
  }

  /**
   A fresh message, whatever the dictionary says of the names on the way: if no path goes
   through a code at which another one ends, every path reads the values placed there.
   */
  lemma SeparatedReply(pls: seq<Placement>, q: Path)
    requires forall pl :: pl in pls ==> pl.entries != [] && !IsInner(pls, Last(pl.entries).code)
    requires q != []
    requires forall pl :: pl in pls && q <= Codes(pl.entries) ==> q == Codes(pl.entries) && (|q| > 1 || pl.newBranch)
    ensures Find(ApplyAll([], pls), q) == LeavesAt(pls, q)
  {
    hide Find, ApplyAll, LeavesAt, Codes;
    var groups := InnerCodes(pls);
    forall pl | pl in pls ensures TypedPlacement(pl, groups) {
      forall i | 0 <= i < |pl.entries| - 1 ensures pl.entries[i].code in groups {
        assert IsInner(pls, pl.entries[i].code);
      }
    }
    assert Typed([], groups);
    WholeReply([], pls, groups, q);
    NothingFound(q);
    assert [] + LeavesAt(pls, q) == LeavesAt(pls, q);
  }

  lemma NothingFound(q: Path)
    requires q != []
    ensures Find([], q) == []
  {
  }

  // ----- what an item list asks for

  /** Which paths and values are accepted, what is placed for them, and why others are refused. */
  lemma PreparedExactly(dict: Dictionary, encode: Encoder, path: seq<string>, value: string, newBranch: bool)
    ensures var r := Prepare(dict, encode, path, value, newBranch);
            && (r == Err(EmptyPath) <==> path == [])
            && (forall name :: r == Err(UnknownAvp(name)) <==>
                  exists i :: 0 <= i < |path| && path[i] == name && name !in dict
                              && forall j :: 0 <= j < i ==> path[j] in dict)
            && (r.Ok? || r == Err(LastIsGroup) || r == Err(BadValue) <==>
                path != [] && forall i :: 0 <= i < |path| ==> path[i] in dict)
            && (r == Err(LastIsGroup) ==> dict[Last(path)].kind == Grouped)
            && (r == Err(BadValue) ==>
                  dict[Last(path)].kind.Scalar? && encode(dict[Last(path)].kind.typeId, value) == None)
            && (r.Ok? ==>
                  && dict[Last(path)].kind.Scalar?
                  && encode(dict[Last(path)].kind.typeId, value) == Some(r.value.payload)
                  && r.value.newBranch == newBranch && |r.value.entries| == |path|
                  && forall i :: 0 <= i < |path| ==> r.value.entries[i] == dict[path[i]])
  {
    hide Lookup;
    var looked := Lookup(dict, path);
    if looked.Ok? {
      forall i | 0 <= i < |path| ensures path[i] in dict && looked.value[i] == dict[path[i]] {
        LookupAt(dict, path, i);
      }
    } else {
      var i := FirstUnknown(dict, path);
    }
  }

  lemma {:induction false} FirstUnknown(dict: Dictionary, path: seq<string>) returns (i: nat)
    requires Lookup(dict, path).Err?
    ensures i < |path| && path[i] !in dict && forall j :: 0 <= j < i ==> path[j] in dict
    ensures Lookup(dict, path).error == UnknownAvp(path[i])
    decreases |path|
  {
    i := 0;
    if path[0] in dict {
      var k := FirstUnknown(dict, path[1..]);
      i := k + 1;
      assert forall j :: 0 < j < i ==> path[j] == path[1..][j - 1];
    }
  }

  /** The item is readable and asks for something that is accepted, or for nothing. */
  predicate IsAccepted(dict: Dictionary, encode: Encoder, item: Item) {
    match item
    case Unreadable => false
    case NotAnItem => false
    case Nothing => true
    case Item(path, value, newBranch) => Prepare(dict, encode, path, value, newBranch).Ok?
  }

  /** The items that ask for something, in order. */
  function Asking(items: seq<Item>): seq<Item> {
    if items == [] then []
    else (if items[0].Item? then [items[0]] else []) + Asking(items[1..])
  }

  /** Each placement is the one its item asks for. */
  ghost predicate PlacedFor(dict: Dictionary, encode: Encoder, pls: seq<Placement>, asking: seq<Item>) {
    && |pls| == |asking|
    && forall k :: 0 <= k < |asking| ==>
         && asking[k].Item?
         && Prepare(dict, encode, asking[k].path, asking[k].value, asking[k].newBranch) == Ok(pls[k])
  }

  lemma PlacedForMore(dict: Dictionary, encode: Encoder, pl: Placement, pls: seq<Placement>, item: Item, asking: seq<Item>)
    requires PlacedFor(dict, encode, pls, asking)
    requires item.Item? && Prepare(dict, encode, item.path, item.value, item.newBranch) == Ok(pl)
    ensures PlacedFor(dict, encode, [pl] + pls, [item] + asking)
  {
    hide Prepare;
  }

  /** Why an item is not accepted. */
  function Refusal(dict: Dictionary, encode: Encoder, item: Item): Option<ReplyError> {
    match item
    case Unreadable => Some(NoField)
    case NotAnItem => Some(NoItem)
    case Nothing => None
    case Item(path, value, newBranch) =>
      match Prepare(dict, encode, path, value, newBranch)
      case Ok(_) => None
      case Err(e) => Some(NotSet(path, e))
  }

  /**
   The plan of an item list: as many accepted items as come before the first one that is not,
   a placement for each of them that asks for something, and the refusal of that first one.
   */
  lemma {:induction false} PlanFollowsItems(dict: Dictionary, encode: Encoder, items: seq<Item>) returns (n: nat)
    ensures n <= |items| && forall i :: 0 <= i < n ==> IsAccepted(dict, encode, items[i])
    ensures n < |items| ==> !IsAccepted(dict, encode, items[n])
    ensures PlacedFor(dict, encode, PlanFor(dict, encode, items).placements, Asking(items[..n]))
    ensures PlanFor(dict, encode, items).error == if n == |items| then None else Refusal(dict, encode, items[n])
    decreases |items|
  {
    hide Prepare, PlacedFor;
    n := 0;
    if items == [] || !IsAccepted(dict, encode, items[0]) {
      assert items[..0] == [];
      NothingAsked(dict, encode);
    } else {
      var item := items[0];
      n := PlanFollowsItems(dict, encode, items[1..]);
      assert items[..n + 1][1..] == items[1..][..n];
      assert forall i :: 0 < i < n + 1 ==> items[i] == items[1..][i - 1];
      if item.Item? {
        PlacedForMore(dict, encode, Prepare(dict, encode, item.path, item.value, item.newBranch).value,
                      PlanFor(dict, encode, items[1..]).placements, item, Asking(items[1..][..n]));
      } else {
        assert [] + Asking(items[1..][..n]) == Asking(items[1..][..n]);
      }
      n := n + 1;
    }
  }

  lemma NothingAsked(dict: Dictionary, encode: Encoder)
    ensures PlacedFor(dict, encode, [], []) && Asking([]) == []
  {
  }

  // ----- the values of a whole reply

  /** The values of leaves, in order; groups have none. */
  function Payloads(avps: seq<Avp>): seq<Option<seq<Octet>>> {
    if avps == [] then []
    else [if avps[0].Leaf? then Some(avps[0].payload) else None] + Payloads(avps[1..])
  }

  function PayloadsAt(pls: seq<Placement>, q: Path): seq<Option<seq<Octet>>> {
    if pls == [] then []
    else (if Codes(pls[0].entries) == q then [Some(pls[0].payload)] else []) + PayloadsAt(pls[1..], q)
  }

  lemma {:induction false} PayloadsConcat(a: seq<Avp>, b: seq<Avp>)
    ensures Payloads(a + b) == Payloads(a) + Payloads(b)
    decreases |a|
  {
    if a == [] {
      assert a + b == b;
    } else {
      assert (a + b)[1..] == a[1..] + b;
      PayloadsConcat(a[1..], b);
    }
  }

  lemma {:induction false} LeavesHoldPayloads(pls: seq<Placement>, q: Path)
    requires forall pl :: pl in pls ==> pl.entries != []
    ensures Payloads(LeavesAt(pls, q)) == PayloadsAt(pls, q)
    decreases |pls|
  {
    hide Codes;
    if pls != [] {
      LeavesHoldPayloads(pls[1..], q);
      var leaf := TheLeaf(pls[0].entries, pls[0].payload);
      HoldsOnlyLeaf(leaf, pls[0].entries, pls[0].payload);
      PayloadsConcat(if Codes(pls[0].entries) == q then [leaf] else [], LeavesAt(pls[1..], q));
      assert [leaf][1..] == [];
    }
  }

  /** After a whole reply a path holds the values it held before and then those placed there, in order. */
  lemma WholeReplyValues(avps: seq<Avp>, pls: seq<Placement>, groups: set<nat>, q: Path)
    requires Typed(avps, groups) && q != []
    requires forall pl :: pl in pls ==> pl.entries != [] && TypedPlacement(pl, groups)
    requires forall pl :: pl in pls && q <= Codes(pl.entries) ==> q == Codes(pl.entries) && (|q| > 1 || pl.newBranch)
    ensures Payloads(Find(ApplyAll(avps, pls), q)) == Payloads(Find(avps, q)) + PayloadsAt(pls, q)
  {
    hide Find, ApplyAll, Codes, LeavesAt, Payloads, PayloadsAt, Typed, TypedPlacement;
    WholeReply(avps, pls, groups, q);
    LeavesHoldPayloads(pls, q);
    PayloadsConcat(Find(avps, q), LeavesAt(pls, q));
  }
}
