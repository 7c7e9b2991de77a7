/**
 Diameter attribute-value pairs as trees: their length on the wire, the document-order
 search along a path of codes, and the two in-place edits the message builder makes
 through the last pair that a search returns.
 */
module DiamTree {

  type Octet = x: int | 0 <= x < 256

  type Path = seq<nat>

  datatype Avp =
    | Leaf(code: nat, vbit: bool, vendor: nat, payload: seq<Octet>)
    | Group(code: nat, vbit: bool, vendor: nat, avps: seq<Avp>)

  function HeaderLen(a: Avp): nat {
    if a.vbit then 12 else 8
  }

  /** Length rounded up to a multiple of four. */
  function Pad4(n: nat): (m: nat)
    ensures n <= m < n + 4 && m % 4 == 0
  {
    n + (4 - n % 4) % 4
  }

  function Len(a: Avp): nat {
    HeaderLen(a) + match a case Leaf(_, _, _, payload) => Pad4(|payload|) case Group(_, _, _, avps) => LenAll(avps)
  }

  function LenAll(avps: seq<Avp>): nat {
    if avps == [] then 0 else Len(avps[0]) + LenAll(avps[1..])
  }

  /** A leaf takes its header of eight or, with a vendor, twelve octets and its value up to the next multiple of four. */
  lemma LeafLength(code: nat, vendor: nat, payload: seq<Octet>, n: nat)
    requires 4 * n - 4 < |payload| <= 4 * n
    ensures Len(Leaf(code, false, vendor, payload)) == 8 + 4 * n
    ensures Len(Leaf(code, true, vendor, payload)) == 12 + 4 * n
  {
    assert Pad4(|payload|) == 4 * n;
  }

  /** A group takes its header and the pairs in it. */
  lemma {:induction false} GroupTakesMembers(code: nat, vendor: nat, avps: seq<Avp>, a: Avp)
    ensures Len(Group(code, false, vendor, [])) == 8 && Len(Group(code, true, vendor, [])) == 12
    ensures forall vbit :: Len(Group(code, vbit, vendor, avps + [a])) == Len(Group(code, vbit, vendor, avps)) + Len(a)
  {
    hide Len, LenAll;
    forall vbit ensures Len(Group(code, vbit, vendor, avps + [a])) == Len(Group(code, vbit, vendor, avps)) + Len(a) {
      GroupIs(code, vbit, vendor, avps);
      GroupIs(code, vbit, vendor, avps + [a]);
      LenAllSnoc(avps, a);
    }
    GroupIs(code, false, vendor, []);
    GroupIs(code, true, vendor, []);
  }

  lemma GroupIs(code: nat, vbit: bool, vendor: nat, avps: seq<Avp>)
    ensures Len(Group(code, vbit, vendor, avps)) == (if vbit then 12 else 8) + LenAll(avps)
    ensures LenAll([]) == 0
  {
  }

  /** A search by one code takes the pairs with that code, in their order. */
  lemma FindByCode(avps: seq<Avp>, a: Avp, code: nat)
    ensures Find([], [code]) == []
    ensures Find(avps + [a], [code]) == Find(avps, [code]) + if a.code == code then [a] else []
  {
    hide Find;
    FindConcat(avps, [a], [code]);
    FindOne(a, [code]);
  }

  /** A longer search goes on inside the groups with its first code, one after the other. */
  lemma FindInside(avps: seq<Avp>, a: Avp, code: nat, rest: Path)
    requires rest != []
    ensures Find(avps + [a], [code] + rest) ==
            Find(avps, [code] + rest) + if a.code == code && a.Group? then Find(a.avps, rest) else []
  {
    hide Find;
    FindConcat(avps, [a], [code] + rest);
    FindOne(a, [code] + rest);
    assert ([code] + rest)[1..] == rest;
  }

  /** Every length is a multiple of four, so pairs stay aligned. */
  lemma {:induction false} LenIsAligned(avps: seq<Avp>)
    ensures LenAll(avps) % 4 == 0
    decreases avps
  {
    hide Pad4;
    if avps != [] {
      var a := avps[0];
      match a {
        case Leaf(_, _, _, payload) => AlignedSum(HeaderLen(a), Pad4(|payload|));
        case Group(_, _, _, members) =>
          LenIsAligned(members);
          AlignedSum(HeaderLen(a), LenAll(members));
      }
      LenIsAligned(avps[1..]);
      AlignedSum(Len(a), LenAll(avps[1..]));
    }
  }

  lemma AlignedSum(x: nat, y: nat)
    requires x % 4 == 0 && y % 4 == 0
    ensures (x + y) % 4 == 0
  {
  }

  /** Matches inside one pair. */
  function FindIn(a: Avp, path: Path): seq<Avp>
    requires path != []
    decreases |path|, 0
  {
    if a.code != path[0] then []
    else if |path| == 1 then [a]
    else if a.Group? then Find(a.avps, path[1..])
    else []
  }

  /** All pairs at a path of codes, in document order. */
  function Find(avps: seq<Avp>, path: Path): (found: seq<Avp>)
    ensures avps == [] ==> found == []
    decreases |path|, |avps|
  {
    if path == [] then avps
    else if avps == [] then []
    else FindIn(avps[0], path) + Find(avps[1..], path)
  }

  /** What a search below a pair finds. */
  function Kids(a: Avp, path: Path): seq<Avp> {
    if a.Group? then Find(a.avps, path) else []
  }

  function KidsAll(avps: seq<Avp>, path: Path): seq<Avp> {
    if avps == [] then [] else Kids(avps[0], path) + KidsAll(avps[1..], path)
  }

  function Last<T>(s: seq<T>): T
    requires s != []
  {
    s[|s| - 1]
  }

  function Init<T>(s: seq<T>): seq<T>
    requires s != []
  {
    s[..|s| - 1]
  }

  /** Overwrites the last pair found at `path`. */
  function ReplaceLast(avps: seq<Avp>, path: Path, y: Avp): seq<Avp>
    requires path != [] && Find(avps, path) != []
    decreases |path|, |avps|
  {
    FindSnoc(avps, path);
    if FindIn(Last(avps), path) != [] then Init(avps) + [ReplaceIn(Last(avps), path, y)]
    else ReplaceLast(Init(avps), path, y) + [Last(avps)]
  }

  function ReplaceIn(a: Avp, path: Path, y: Avp): Avp
    requires path != [] && FindIn(a, path) != []
    decreases |path|, 0
  {
    if |path| == 1 then y else a.(avps := ReplaceLast(a.avps, path[1..], y))
  }

  /** Adds a member to the group that is the last pair found at `path`. */
  function AppendAt(avps: seq<Avp>, path: Path, x: Avp): seq<Avp>
    requires path != [] && Find(avps, path) != [] && Last(Find(avps, path)).Group?
  {
    var g := Last(Find(avps, path));
    ReplaceLast(avps, path, g.(avps := g.avps + [x]))
  }

  // ----- search

  lemma {:induction false} FindConcat(a: seq<Avp>, b: seq<Avp>, path: Path)
    requires path != []
    ensures Find(a + b, path) == Find(a, path) + Find(b, path)
    decreases |a|
  {
    hide FindIn;
    if a == [] {
      assert a + b == b;
    } else {
      FindConcat(a[1..], b, path);
      assert (a + b)[1..] == a[1..] + b;
      var x, y, z := FindIn(a[0], path), Find(a[1..], path), Find(b, path);
      assert x + (y + z) == (x + y) + z;
    }
  }

  lemma FindOne(a: Avp, path: Path)
    requires path != []
    ensures Find([a], path) == FindIn(a, path)
  {
    hide FindIn;
    assert Find([a][1..], path) == [];
  }

  lemma FindSnoc(avps: seq<Avp>, path: Path)
    requires path != [] && avps != []
    ensures Find(avps, path) == Find(Init(avps), path) + FindIn(Last(avps), path)
  {
    hide FindIn, Find;
    FindConcat(Init(avps), [Last(avps)], path);
    FindOne(Last(avps), path);
    assert avps == Init(avps) + [Last(avps)];
  }

  lemma {:induction false} KidsAllConcat(a: seq<Avp>, b: seq<Avp>, path: Path)
    ensures KidsAll(a + b, path) == KidsAll(a, path) + KidsAll(b, path)
    decreases |a|
  {
    hide Kids;
    if a == [] {
      assert a + b == b;
    } else {
      KidsAllConcat(a[1..], b, path);
      assert (a + b)[1..] == a[1..] + b;
    }
  }

  /** A search along p + r goes through the pairs found at p, in order. */
  lemma {:induction false} FindThrough(avps: seq<Avp>, p: Path, r: Path)
    requires p != [] && r != []
    ensures Find(avps, p + r) == KidsAll(Find(avps, p), r)
    decreases |p|, |avps|, 1
  {
    if avps != [] {
      FindInThrough(avps[0], p, r);
      FindThrough(avps[1..], p, r);
      KidsAllConcat(FindIn(avps[0], p), Find(avps[1..], p), r);
    }
  }

  lemma {:induction false} FindInThrough(a: Avp, p: Path, r: Path)
    requires p != [] && r != []
    ensures FindIn(a, p + r) == KidsAll(FindIn(a, p), r)
    decreases |p|, 0, 0
  {
    if a.code == p[0] {
      assert (p + r)[1..] == p[1..] + r;
      if |p| == 1 {
        assert p[1..] + r == r;
        assert KidsAll([a], r) == Kids(a, r) + KidsAll([a][1..], r);
      } else if a.Group? {
        FindThrough(a.avps, p[1..], r);
      }
    }
  }

  // ----- overwriting the last match

  lemma {:induction false} LenAllConcat(a: seq<Avp>, b: seq<Avp>)
    ensures LenAll(a + b) == LenAll(a) + LenAll(b)
    decreases |a|
  {
    hide Len;
    if a == [] {
      assert a + b == b;
    } else {
      LenAllConcat(a[1..], b);
      assert (a + b)[1..] == a[1..] + b;
    }
  }

  lemma LenAllSnoc(avps: seq<Avp>, a: Avp)
    ensures LenAll(avps + [a]) == LenAll(avps) + Len(a)
  {
    hide Len;
    LenAllConcat(avps, [a]);
    assert [a][1..] == [];
  }

  /** Overwriting changes the total length by the difference of the two pairs. */
  lemma {:induction false} ReplaceLength(avps: seq<Avp>, path: Path, y: Avp)
    requires path != [] && Find(avps, path) != []
    ensures LenAll(ReplaceLast(avps, path, y)) + Len(Last(Find(avps, path))) == LenAll(avps) + Len(y)
    decreases |path|, |avps|
  {
    hide Find, Len;
    FindSnoc(avps, path);
    var init, last := Init(avps), Last(avps);
    assert avps == init + [last];
    LenAllSnoc(init, last);
    if FindIn(last, path) != [] {
      LenAllSnoc(init, ReplaceIn(last, path, y));
      ReplaceInLength(last, path, y);
    } else {
      ReplaceLength(init, path, y);
      LenAllSnoc(ReplaceLast(init, path, y), last);
    }
  }

  lemma {:induction false} ReplaceInLength(a: Avp, path: Path, y: Avp)
    requires path != [] && FindIn(a, path) != []
    ensures Len(ReplaceIn(a, path, y)) + Len(Last(FindIn(a, path))) == Len(a) + Len(y)
    decreases |path|, 0
  {
    hide Find, ReplaceLast, LenAll;
    if |path| > 1 {
      ReplaceLength(a.avps, path[1..], y);
    }
  }

  /** A search for the overwritten path finds the new pair in the place of the last one. */
  lemma {:induction false} ReplaceReadBack(avps: seq<Avp>, path: Path, y: Avp)
    requires path != [] && Find(avps, path) != [] && y.code == Last(path)
    ensures Find(ReplaceLast(avps, path, y), path) == Init(Find(avps, path)) + [y]
    decreases |path|, |avps|
  {
    hide Find;
    FindSnoc(avps, path);
    var init, last := Init(avps), Last(avps);
    if FindIn(last, path) != [] {
      var last' := ReplaceIn(last, path, y);
      ReplaceInReadBack(last, path, y);
      FindSnoc(init + [last'], path);
      assert Init(init + [last']) == init;
    } else {
      ReplaceReadBack(init, path, y);
      var init' := ReplaceLast(init, path, y);
      FindSnoc(init' + [last], path);
      assert Init(init' + [last]) == init';
    }
  }

  lemma {:induction false} ReplaceInReadBack(a: Avp, path: Path, y: Avp)
    requires path != [] && FindIn(a, path) != [] && y.code == Last(path)
    ensures FindIn(ReplaceIn(a, path, y), path) == Init(FindIn(a, path)) + [y]
    decreases |path|, 0
  {
    hide Find, ReplaceLast;
    if |path| > 1 {
      ReplaceReadBack(a.avps, path[1..], y);
    }
  }

  /** Neither path is a prefix of the other. */
  predicate Apart(p: Path, q: Path) {
    !(p <= q) && !(q <= p)
  }

  /** A search along a path apart from the overwritten one is not affected. */
  lemma {:induction false} ReplaceFrame(avps: seq<Avp>, path: Path, y: Avp, q: Path)
    requires path != [] && Find(avps, path) != [] && y.code == Last(path) && Apart(path, q)
    ensures Find(ReplaceLast(avps, path, y), q) == Find(avps, q)
    decreases |path|, |avps|
  {
    hide Find;
    FindSnoc(avps, path);
    FindSnoc(avps, q);
    var init, last := Init(avps), Last(avps);
    if FindIn(last, path) != [] {
      var last' := ReplaceIn(last, path, y);
      ReplaceInFrame(last, path, y, q);
      FindSnoc(init + [last'], q);
      assert Init(init + [last']) == init;
    } else {
      ReplaceFrame(init, path, y, q);
      var init' := ReplaceLast(init, path, y);
      FindSnoc(init' + [last], q);
      assert Init(init' + [last]) == init';
    }
  }

  lemma {:induction false} ReplaceInFrame(a: Avp, path: Path, y: Avp, q: Path)
    requires path != [] && FindIn(a, path) != [] && y.code == Last(path) && Apart(path, q)
    ensures FindIn(ReplaceIn(a, path, y), q) == FindIn(a, q)
    decreases |path|, 0
  {
    hide Find, ReplaceLast;
    if |path| > 1 && q[0] == path[0] {
      assert Apart(path[1..], q[1..]);
      ReplaceFrame(a.avps, path[1..], y, q[1..]);
    }
  }
}
