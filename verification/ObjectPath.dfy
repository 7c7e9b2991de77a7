/**
 A data provider that walks an object along a path and remembers, under joined string
 keys, everything it met on the way, failures included.
 */
module ObjectPath {
  import opened Wrappers
  import opened Strings

  /** An object graph: taking a field, method or element by name may fail, and always fails on nil. */
  datatype Graph<!Obj> = Graph(root: Obj, nil: Obj, field: (Obj, string) -> Option<Obj>)

  ghost predicate NilHasNoFields<Obj(!new)>(g: Graph<Obj>) {
    forall name :: g.field(g.nil, name) == None
  }

  datatype Segment = Seg(name: string, selector: string) | Unclosed | Crash

  /** A path element: a name and, in square brackets, an optional selector. */
  function Parse(fld: string): Segment {
    var splt := Split(fld, '[');
    if |splt| == 1 then Seg(fld, "")
    else if splt[1] == "" then Crash
    else if splt[1][|splt[1]| - 1] != ']' then Unclosed
    else Seg(splt[0], splt[1][..|splt[1]| - 1])
  }

  type Cache<Obj> = map<string, Obj>

  datatype Answer<Obj> = Value(data: Obj) | Failed | Crashed

  datatype Outcome<Obj> = Outcome(answer: Answer<Obj>, cache: Cache<Obj>)

  function NameKey(prev: string, name: string): string {
    if prev == "" then name else prev + "." + name
  }

  function SelectorKey(prev: string, selector: string): string {
    prev + "[" + selector + "]"
  }

  /** One step of the walk: from the cache if the key is there, else from the object; a failure is cached as nil. */
  function Visit<Obj>(g: Graph<Obj>, cache: Cache<Obj>, obj: Obj, key: string, name: string): Outcome<Obj> {
    if key in cache then Outcome(Value(cache[key]), cache)
    else
      match g.field(obj, name)
      case None => Outcome(Failed, cache[key := g.nil])
      case Some(v) => Outcome(Value(v), cache[key := v])
  }

  /** Both steps of one path element. */
  function VisitSegment<Obj>(g: Graph<Obj>, cache: Cache<Obj>, obj: Obj, key: string, seg: Segment): Outcome<Obj>
    requires seg.Seg?
  {
    var o := Visit(g, cache, obj, key, seg.name);
    if seg.selector == "" || !o.answer.Value? then o
    else Visit(g, o.cache, o.answer.data, SelectorKey(key, seg.selector), seg.selector)
  }

  function SegmentKey(key: string, seg: Segment): string
    requires seg.Seg?
  {
    if seg.selector == "" then key else SelectorKey(key, seg.selector)
  }

  /** The walk with the cache, from the object reached so far. */
  function WalkCached<Obj>(g: Graph<Obj>, cache: Cache<Obj>, obj: Obj, data: Obj, prev: string, path: seq<string>)
    : Outcome<Obj>
    decreases |path|
  {
    if path == [] then Outcome(Value(data), cache)
    else
      match Parse(path[0])
      case Crash => Outcome(Crashed, cache)
      case Unclosed => Outcome(Failed, cache)
      case Seg(name, selector) =>
        var seg := Seg(name, selector);
        var key := NameKey(prev, name);
        var o := VisitSegment(g, cache, obj, key, seg);
        if !o.answer.Value? then o
        else WalkCached(g, o.cache, o.answer.data, o.answer.data, SegmentKey(key, seg), path[1..])
  }

  /** A whole query on a provider with the given prefix. */
  function Query<Obj>(g: Graph<Obj>, prefix: seq<string>, cache: Cache<Obj>, path: seq<string>): Outcome<Obj> {
    var full := Join(path, '.');
    if full in cache then Outcome(Value(cache[full]), cache)
    else if !(prefix <= path) then Outcome(Failed, cache)
    else
      var o := WalkCached(g, cache, g.root, g.nil, "", path[|prefix|..]);
      if o.answer.Value? then o.(cache := o.cache[full := o.answer.data]) else o
  }

  class ObjectDP<Obj> {
    const g: Graph<Obj>
    const prefix: seq<string>
    var cache: Cache<Obj>

    constructor (g: Graph<Obj>, prefix: seq<string>)
      ensures this.g == g && this.prefix == prefix && cache == map[]
    {
      this.g, this.prefix, cache := g, prefix, map[];
    }

    /** The value at a key, from the cache or else from the object. */
    method Step(obj: Obj, key: string, name: string) returns (answer: Answer<Obj>)
      modifies this`cache
      ensures Outcome(answer, cache) == Visit(g, old(cache), obj, key, name)
    {
      if key in cache {
        return Value(cache[key]);
      }
      match g.field(obj, name)
      case None =>
        cache := cache[key := g.nil];
        return Failed;
      case Some(v) =>
        cache := cache[key := v];
        return Value(v);
    }

    method FieldAsInterface(fldPath: seq<string>) returns (answer: Answer<Obj>)
      modifies this`cache
      ensures Outcome(answer, cache) == Query(g, prefix, old(cache), fldPath)
    {
      hide Parse, Join;
      var full := Join(fldPath, '.');
      if full in cache {
        return Value(cache[full]);
      }
      if |fldPath| < |prefix| {
        return Failed;
      }
      for i := 0 to |prefix|
        invariant prefix[..i] == fldPath[..i]
      {
        if fldPath[i] != prefix[i] {
          return Failed;
        }
      }
      assert prefix <= fldPath;
      var path := fldPath[|prefix|..];
      ghost var goal := WalkCached(g, cache, g.root, g.nil, "", path);
      var obj, data, prevFld := g.root, g.nil, "";
      for i := 0 to |path|
        invariant goal == WalkCached(g, cache, obj, data, prevFld, path[i..])
      {
        assert path[i..][1..] == path[i + 1..];
        match Parse(path[i]) {
          case Crash => return Crashed;
          case Unclosed => return Failed;
          case Seg(fld, slctrStr) =>
            prevFld := NameKey(prevFld, fld);
            answer := Step(obj, prevFld, fld);
            if answer.Failed? {
              return;
            }
            obj, data := answer.data, answer.data;
            if slctrStr != "" {
              prevFld := SelectorKey(prevFld, slctrStr);
              answer := Step(obj, prevFld, slctrStr);
              if answer.Failed? {
                return;
              }
              obj, data := answer.data, answer.data;
            }
        }
      }
      cache := cache[full := data];
      return Value(data);
    }
  }

  // ----- the uncached walk

  datatype Hop = Name(s: string) | Selector(s: string)

  /** Path elements as single hops. */
  function Hops(path: seq<string>): seq<Hop> {
    if path == [] then []
    else
      (match Parse(path[0])
       case Seg(name, selector) => if selector == "" then [Name(name)] else [Name(name), Selector(selector)]
       case _ => [])
      + Hops(path[1..])
  }

  /** The plain walk: one hop after the other, no cache. */
  function Walk<Obj>(g: Graph<Obj>, hops: seq<Hop>): Option<Obj> {
    if hops == [] then Some(g.root)
    else
      match Walk(g, hops[..|hops| - 1])
      case None => None
      case Some(o) => g.field(o, hops[|hops| - 1].s)
  }

  /** The value a cache entry for `hops` must hold. */
  function Recorded<Obj>(g: Graph<Obj>, hops: seq<Hop>): Obj {
    match Walk(g, hops) case Some(v) => v case None => g.nil
  }

  // ----- keys

  predicate IsName(s: string) {
    s != "" && '.' !in s && '[' !in s && ']' !in s
  }

  predicate IsSelector(s: string) {
    s != "" && '[' !in s && ']' !in s
  }

  /** A name, or a name with a selector in brackets. */
  ghost predicate WellFormedElement(fld: string) {
    || IsName(fld)
    || exists name, sel :: IsName(name) && IsSelector(sel) && fld == name + "[" + sel + "]"
  }

  ghost predicate WellFormed(path: seq<string>) {
    path != [] && forall fld :: fld in path ==> WellFormedElement(fld)
  }

  ghost predicate GoodHops(hops: seq<Hop>) {
    && (hops != [] ==> hops[0].Name?)
    && forall h :: h in hops ==> if h.Name? then IsName(h.s) else IsSelector(h.s)
  }

  function Key(hops: seq<Hop>): string {
    if hops == [] then ""
    else
      var prev, h := Key(hops[..|hops| - 1]), hops[|hops| - 1];
      if h.Name? then NameKey(prev, h.s) else SelectorKey(prev, h.s)
  }

  lemma KeySnoc(hops: seq<Hop>, h: Hop)
    ensures Key(hops + [h]) == if h.Name? then NameKey(Key(hops), h.s) else SelectorKey(Key(hops), h.s)
  {
    assert (hops + [h])[..|hops|] == hops;
  }

  lemma {:induction false} KeyIsNotEmpty(hops: seq<Hop>)
    requires GoodHops(hops) && hops != []
    ensures Key(hops) != ""
  {
    var h := hops[|hops| - 1];
    assert h in hops;
  }

  /** A string is cut at its last separator in one way only. */
  lemma LastSeparator(u: string, s: string, v: string, t: string, c: char)
    requires u + [c] + s == v + [c] + t && c !in s && c !in t
    ensures u == v && s == t
  {
    var x := u + [c] + s;
    assert forall j :: |u| < j < |x| ==> x[j] == s[j - |u| - 1];
    assert forall j :: |v| < j < |x| ==> x[j] == t[j - |v| - 1];
    assert x[|u|] == c && x[|v|] == c;
    assert |u| == |v|;
    assert u == x[..|u|] && v == x[..|v|];
    assert s == x[|u| + 1..] && t == x[|v| + 1..];
  }

  /** The shape of a key, by its last hop. */
  lemma KeyShape(hops: seq<Hop>)
    requires GoodHops(hops) && hops != []
    ensures var k, prev, h := Key(hops), hops[..|hops| - 1], hops[|hops| - 1];
            && k != "" && (k[|k| - 1] == ']' <==> h.Selector?)
            && GoodHops(prev)
            && (h.Selector? ==> k[..|k| - 1] == Key(prev) + ['['] + h.s && '[' !in h.s)
            && (h.Name? ==> '.' !in h.s)
            && (h.Name? ==> if prev == [] then k == h.s else k == Key(prev) + ['.'] + h.s)
  {
    var prev, h := hops[..|hops| - 1], hops[|hops| - 1];
    assert h in hops;
    assert prev != [] ==> prev[0] == hops[0];
    KeyIsNotEmpty(hops);
    if prev != [] {
      KeyIsNotEmpty(prev);
    }
  }

  /** Different hop lists have different keys. */
  lemma {:induction false} KeyIsInjective(a: seq<Hop>, b: seq<Hop>)
    requires GoodHops(a) && GoodHops(b) && Key(a) == Key(b)
    ensures a == b
    decreases |a|
  {
    hide Key;
    if a == [] || b == [] {
      EmptyKey(a);
      EmptyKey(b);
    } else {
      var k, a', x, b', y := Key(a), a[..|a| - 1], a[|a| - 1], b[..|b| - 1], b[|b| - 1];
      KeyShape(a);
      KeyShape(b);
      if x.Selector? {
        LastSeparator(Key(a'), x.s, Key(b'), y.s, '[');
      } else {
        assert a' != [] ==> k[|Key(a')|] == '.';
        assert b' != [] ==> k[|Key(b')|] == '.';
        assert a' == [] <==> b' == [];
        if a' != [] {
          LastSeparator(Key(a'), x.s, Key(b'), y.s, '.');
        } else {
          assert a' == b';
        }
      }
      KeyIsInjective(a', b');
      assert a == a' + [x] && b == b' + [y];
    }
  }

  lemma EmptyKey(hops: seq<Hop>)
    requires GoodHops(hops)
    ensures Key(hops) == "" <==> hops == []
  {
    if hops != [] {
      KeyIsNotEmpty(hops);
    }
  }

  // ----- parsing well-formed elements

  lemma ParseName(name: string)
    requires IsName(name)
    ensures Parse(name) == Seg(name, "")
  {
    SplitBehind(name, '[', "");
  }

  lemma ParseSelected(name: string, sel: string)
    requires IsName(name) && IsSelector(sel)
    ensures Parse(name + "[" + sel + "]") == Seg(name, sel)
  {
    var behind := sel + "]";
    SplitBehind(name, '[', behind);
    SplitBehind(behind, '[', "");
    assert name + "[" + sel + "]" == name + ['['] + behind;
  }

  /** A well-formed element parses into a name and perhaps a selector, and prints back. */
  lemma ParseWellFormed(fld: string) returns (name: string, sel: string)
    requires WellFormedElement(fld)
    ensures Parse(fld) == Seg(name, sel) && IsName(name) && (sel == "" || IsSelector(sel))
    ensures fld == if sel == "" then name else SelectorKey(name, sel)
  {
    if IsName(fld) {
      ParseName(fld);
      name, sel := fld, "";
    } else {
      var n, s :| IsName(n) && IsSelector(s) && fld == n + "[" + s + "]";
      ParseSelected(n, s);
      name, sel := n, s;
    }
  }

  function SegmentHops(seg: Segment): seq<Hop>
    requires seg.Seg?
  {
    if seg.selector == "" then [Name(seg.name)] else [Name(seg.name), Selector(seg.selector)]
  }

  lemma GoodSegment(hops: seq<Hop>, seg: Segment)
    requires GoodHops(hops) && seg.Seg? && IsName(seg.name) && (seg.selector == "" || IsSelector(seg.selector))
    ensures GoodHops(hops + SegmentHops(seg)) && hops + SegmentHops(seg) != []
  {
    hide IsName, IsSelector;
  }

  /** The hops of a path: those of its first element, then the others. */
  lemma HopsStep(hops: seq<Hop>, path: seq<string>, seg: Segment)
    requires path != [] && seg.Seg? && Parse(path[0]) == seg
    ensures hops + Hops(path) == (hops + SegmentHops(seg)) + Hops(path[1..])
  {
    hide Parse;
    var a, b := SegmentHops(seg), Hops(path[1..]);
    assert Hops(path) == a + b;
    assert hops + (a + b) == (hops + a) + b;
  }

  // ----- the cache agrees with the walk

  type Keys = iset<string>

  ghost const ALL_KEYS: Keys := iset key: string | true

  /**
   Every entry under the key of a hop list holds what the plain walk finds there, or nil if
   it fails; only the keys of `keys` are looked at.
   */
  ghost predicate Consistent<Obj(!new)>(g: Graph<Obj>, keys: Keys, cache: Cache<Obj>) {
    forall hops :: hops != [] && GoodHops(hops) && Key(hops) in keys && Key(hops) in cache ==>
                     cache[Key(hops)] == Recorded(g, hops)
  }

  /** The cache keeps its entries, and new ones have keys of `keys`. */
  ghost predicate Grows<Obj(!new)>(keys: Keys, cache: Cache<Obj>, cache': Cache<Obj>) {
    && (forall key :: key in cache ==> key in cache' && cache'[key] == cache[key])
    && (forall key :: key in cache' && key !in cache ==> key in keys)
  }

  /** All keys that the walk meets behind the first `n` hops. */
  ghost predicate KeysOf(hops: seq<Hop>, n: nat, keys: Keys) {
    forall m :: n < m <= |hops| ==> Key(hops[..m]) in keys
  }

  lemma WalkSnoc<Obj>(g: Graph<Obj>, hops: seq<Hop>, h: Hop)
    ensures Walk(g, hops + [h]) ==
            match Walk(g, hops) case None => None case Some(o) => g.field(o, h.s)
  {
    assert (hops + [h])[..|hops|] == hops;
  }

  /** A cached hop from a recorded object records the next object. */
  lemma VisitIsWalk<Obj(!new)>(g: Graph<Obj>, keys: Keys, cache: Cache<Obj>, hops: seq<Hop>, h: Hop)
    requires NilHasNoFields(g) && Consistent(g, keys, cache) && GoodHops(hops + [h]) && Key(hops + [h]) in keys
    ensures var next := hops + [h];
            var o := Visit(g, cache, Recorded(g, hops), Key(next), h.s);
            && Consistent(g, keys, o.cache) && Grows(keys, cache, o.cache) && Key(next) in o.cache
            && match o.answer
               case Value(v) => v == Recorded(g, next)
               case Failed => Walk(g, next) == None
               case Crashed => false
  {
    hide Key, Walk;
    var next := hops + [h];
    WalkSnoc(g, hops, h);
    var o := Visit(g, cache, Recorded(g, hops), Key(next), h.s);
    forall other | other != [] && GoodHops(other) && Key(other) in keys && Key(other) in o.cache
      ensures o.cache[Key(other)] == Recorded(g, other)
    {
      if Key(other) == Key(next) {
        KeyIsInjective(other, next);
      }
    }
  }

  lemma VisitSegmentIsWalk<Obj(!new)>(g: Graph<Obj>, keys: Keys, cache: Cache<Obj>, hops: seq<Hop>, seg: Segment)
    requires NilHasNoFields(g) && Consistent(g, keys, cache) && GoodHops(hops)
    requires seg.Seg? ==> KeysOf(hops + SegmentHops(seg), |hops|, keys)
    requires seg.Seg? && IsName(seg.name) && (seg.selector == "" || IsSelector(seg.selector))
    ensures var key := NameKey(Key(hops), seg.name);
            var next := hops + SegmentHops(seg);
            var o := VisitSegment(g, cache, Recorded(g, hops), key, seg);
            && GoodHops(next) && Key(next) == SegmentKey(key, seg)
            && Consistent(g, keys, o.cache) && Grows(keys, cache, o.cache)
            && match o.answer
               case Value(v) => v == Recorded(g, next) && forall m :: |hops| < m <= |next| ==> Key(next[..m]) in o.cache
               case Failed => Walk(g, next) == None
               case Crashed => false
  {
    hide Key, Walk, Recorded, Consistent, Visit;
    var first := hops + [Name(seg.name)];
    var next := hops + SegmentHops(seg);
    assert next[..|hops| + 1] == first && next[..|next|] == next;
    KeySnoc(hops, Name(seg.name));
    assert GoodHops(first);
    VisitIsWalk(g, keys, cache, hops, Name(seg.name));
    var key := NameKey(Key(hops), seg.name);
    var o := Visit(g, cache, Recorded(g, hops), key, seg.name);
    if seg.selector != "" {
      var h := Selector(seg.selector);
      assert hops + SegmentHops(seg) == first + [h];
      assert first[0].Name?;
      assert GoodHops(first + [h]);
      KeySnoc(first, h);
      WalkSnoc(g, first, h);
      if o.answer.Value? {
        VisitIsWalk(g, keys, o.cache, first, h);
      }
    }
  }

  /** The cached walk of the rest of a path, from a recorded object. */
  lemma {:induction false} WalkCachedIsWalk<Obj(!new)>(g: Graph<Obj>, keys: Keys, cache: Cache<Obj>, hops: seq<Hop>,
                                                       data: Obj, path: seq<string>)
    requires NilHasNoFields(g) && Consistent(g, keys, cache) && GoodHops(hops)
    requires KeysOf(hops + Hops(path), |hops|, keys)
    requires forall fld :: fld in path ==> WellFormedElement(fld)
    requires path == [] ==> data == Recorded(g, hops)
    ensures var o := WalkCached(g, cache, Recorded(g, hops), data, Key(hops), path);
            var all := hops + Hops(path);
            && GoodHops(all) && Consistent(g, keys, o.cache) && Grows(keys, cache, o.cache)
            && match o.answer
               case Value(v) => v == Recorded(g, all) && forall m :: |hops| < m <= |all| ==> Key(all[..m]) in o.cache
               case Failed => Walk(g, all) == None
               case Crashed => false
    decreases |path|
  {
    hide Key, Walk, Recorded, Consistent, VisitSegment, Parse, WellFormedElement, Hops, GoodHops, IsName, IsSelector;
    if path == [] {
      NoHops(path);
      assert hops + [] == hops;
    } else {
      assert path[0] in path;
      var name, sel := ParseWellFormed(path[0]);
      var seg := Seg(name, sel);
      var next := hops + SegmentHops(seg);
      HopsStep(hops, path, seg);
      KeysSplit(next, Hops(path[1..]), |hops|, keys);
      VisitSegmentIsWalk(g, keys, cache, hops, seg);
      var o := VisitSegment(g, cache, Recorded(g, hops), NameKey(Key(hops), name), seg);
      if o.answer.Value? {
        WalkCachedIsWalk(g, keys, o.cache, next, o.answer.data, path[1..]);
        var all := hops + Hops(path);
        assert forall m :: 0 <= m <= |next| ==> all[..m] == next[..m];
      } else {
        HopsAreGood(next, path[1..]);
        FailureStays(g, next, Hops(path[1..]));
      }
    }
  }

  lemma KeysSplit(hops: seq<Hop>, more: seq<Hop>, n: nat, keys: Keys)
    requires n <= |hops| && KeysOf(hops + more, n, keys)
    ensures KeysOf(hops, n, keys) && KeysOf(hops + more, |hops|, keys)
  {
    hide Key;
    forall m | n < m <= |hops| ensures Key(hops[..m]) in keys {
      assert (hops + more)[..m] == hops[..m];
    }
  }

  lemma {:induction false} HopsAreGood(hops: seq<Hop>, path: seq<string>)
    requires GoodHops(hops) && forall fld :: fld in path ==> WellFormedElement(fld)
    ensures GoodHops(hops + Hops(path))
    decreases |path|
  {
    hide Parse, WellFormedElement, Hops, GoodHops, IsName, IsSelector;
    if path == [] {
      NoHops(path);
      assert hops + [] == hops;
    } else {
      assert path[0] in path;
      var name, sel := ParseWellFormed(path[0]);
      var seg := Seg(name, sel);
      GoodSegment(hops, seg);
      HopsStep(hops, path, seg);
      HopsAreGood(hops + SegmentHops(seg), path[1..]);
    }
  }

  /** A walk that failed stays failed. */
  lemma {:induction false} FailureStays<Obj>(g: Graph<Obj>, hops: seq<Hop>, more: seq<Hop>)
    requires Walk(g, hops) == None
    ensures Walk(g, hops + more) == None
    decreases |more|
  {
    if more == [] {
      assert hops + more == hops;
    } else {
      var m := more[..|more| - 1];
      FailureStays(g, hops, m);
      assert (hops + more)[..|hops + more| - 1] == hops + m;
    }
  }

  lemma FirstElement(hops: seq<Hop>, path: seq<string>) returns (next: seq<Hop>)
    requires path != [] && WellFormedElement(path[0]) && GoodHops(hops)
    ensures GoodHops(next) && next != [] && Key(next) == NameKey(Key(hops), path[0])
    ensures hops + Hops(path) == next + Hops(path[1..])
  {
    hide Key, Parse, WellFormedElement, NameKey, SelectorKey, Hops, GoodHops, IsName, IsSelector;
    var name, sel := ParseWellFormed(path[0]);
    var seg := Seg(name, sel);
    next := hops + SegmentHops(seg);
    GoodSegment(hops, seg);
    HopsStep(hops, path, seg);
    var first := hops + [Name(name)];
    KeySnoc(hops, Name(name));
    if sel != "" {
      KeySnoc(first, Selector(sel));
      SelectorBehindName(Key(hops), name, sel);
      assert next == first + [Selector(sel)];
    }
  }

  lemma SelectorBehindName(k: string, name: string, sel: string)
    ensures SelectorKey(NameKey(k, name), sel) == NameKey(k, SelectorKey(name, sel))
  {
    assert k + "." + (name + "[" + sel + "]") == k + "." + name + "[" + sel + "]";
  }

  lemma NameKeyAssociates(k: string, f: string, rest: string)
    requires f != ""
    ensures NameKey(NameKey(k, f), rest) == NameKey(k, f + ['.'] + rest)
  {
    assert k + "." + (f + ['.'] + rest) == k + "." + f + "." + rest;
  }

  /** The joined path is the key of its hops. */
  lemma {:induction false} JoinIsKey(hops: seq<Hop>, path: seq<string>)
    requires WellFormed(path) && GoodHops(hops)
    ensures Key(hops + Hops(path)) == NameKey(Key(hops), Join(path, '.'))
    decreases |path|
  {
    hide Key, Hops, NameKey, WellFormedElement;
    assert path[0] in path;
    var next := FirstElement(hops, path);
    if |path| == 1 {
      NoHops(path[1..]);
      assert next + [] == next;
    } else {
      JoinIsKey(next, path[1..]);
      ElementIsNotEmpty(path[0]);
      NameKeyAssociates(Key(hops), path[0], Join(path[1..], '.'));
    }
  }

  lemma NoHops(path: seq<string>)
    requires path == []
    ensures Hops(path) == []
  {
  }

  lemma ElementIsNotEmpty(fld: string)
    requires WellFormedElement(fld)
    ensures fld != ""
  {
  }

  /** What a query must answer: a value that the plain walk finds, and an error or nil where it finds none. */
  predicate Right<Obj(==)>(g: Graph<Obj>, path: seq<string>, answer: Answer<Obj>) {
    if path == [] then answer == Value(g.nil)
    else
      match Walk(g, Hops(path))
      case Some(v) => answer == Value(v)
      case None => answer == Failed || answer == Value(g.nil)
  }

  /**
   One query on a provider without a prefix and with a consistent cache: a path that the
   plain walk can follow is answered with exactly what the walk finds, any other path with
   an error or nil, and the cache stays consistent.
   */
  lemma QueryIsWalk<Obj(!new)>(g: Graph<Obj>, cache: Cache<Obj>, path: seq<string>)
    requires NilHasNoFields(g) && Consistent(g, ALL_KEYS, cache) && WellFormed(path)
    ensures var o := Query(g, [], cache, path);
            Consistent(g, ALL_KEYS, o.cache) && Right(g, path, o.answer)
  {
    hide Key, Walk, Parse, WellFormedElement, Hops, Join;
    var hops := Hops(path);
    PathKey(path);
    var full := Join(path, '.');
    HopsAreSome(path);
    WalkFromRoot(g, ALL_KEYS, cache, path);
    var o := WalkCached(g, cache, g.root, g.nil, "", path);
    assert path[0..] == path;
    if full !in cache && o.answer.Value? {
      forall other | other != [] && GoodHops(other) && Key(other) in o.cache[full := o.answer.data]
        ensures o.cache[full := o.answer.data][Key(other)] == Recorded(g, other)
      {
        if Key(other) == full {
          KeyIsInjective(other, hops);
        }
      }
    }
  }

  lemma PathKey(path: seq<string>)
    requires WellFormed(path)
    ensures GoodHops(Hops(path)) && Key(Hops(path)) == Join(path, '.')
  {
    hide Key, Parse, WellFormedElement, Hops, Join;
    var hops := Hops(path);
    assert [] + hops == hops;
    assert GoodHops([]);
    JoinIsKey([], path);
    HopsAreGood([], path);
    EmptyKey([]);
  }

  /** The whole walk of a path with the cache. */
  lemma WalkFromRoot<Obj(!new)>(g: Graph<Obj>, keys: Keys, cache: Cache<Obj>, path: seq<string>)
    requires NilHasNoFields(g) && Consistent(g, keys, cache) && WellFormed(path) && KeysOf(Hops(path), 0, keys)
    ensures var o := WalkCached(g, cache, g.root, g.nil, "", path);
            var all := Hops(path);
            && Consistent(g, keys, o.cache) && Grows(keys, cache, o.cache)
            && match o.answer
               case Value(v) => v == Recorded(g, all) && forall m :: 0 < m <= |all| ==> Key(all[..m]) in o.cache
               case Failed => Walk(g, all) == None
               case Crashed => false
  {
    hide Key, Walk, Parse, WellFormedElement, Hops, Consistent;
    assert [] + Hops(path) == Hops(path);
    assert GoodHops([]);
    StartOfWalk(g);
    WalkCachedIsWalk(g, keys, cache, [], g.nil, path);
  }

  lemma StartOfWalk<Obj>(g: Graph<Obj>)
    ensures Walk(g, []) == Some(g.root) && Recorded(g, []) == g.root && Key([]) == ""
  {
  }

  lemma HopsAreSome(path: seq<string>)
    requires WellFormed(path)
    ensures Hops(path) != []
  {
    hide Parse, WellFormedElement;
    assert path[0] in path;
    var name, sel := ParseWellFormed(path[0]);
  }

  /** The cache after a history of queries. */
  function After<Obj>(g: Graph<Obj>, prefix: seq<string>, cache: Cache<Obj>, history: seq<seq<string>>): Cache<Obj>
    decreases |history|
  {
    if history == [] then cache else After(g, prefix, Query(g, prefix, cache, history[0]).cache, history[1..])
  }

  /** Without a prefix, the answer after any history is that of the plain walk. */
  lemma {:induction false} AnyHistory<Obj(!new)>(g: Graph<Obj>, cache: Cache<Obj>, history: seq<seq<string>>, path: seq<string>)
    requires NilHasNoFields(g) && Consistent(g, ALL_KEYS, cache)
    requires forall p :: p in history ==> WellFormed(p)
    requires WellFormed(path)
    ensures Consistent(g, ALL_KEYS, After(g, [], cache, history))
    ensures Right(g, path, Query(g, [], After(g, [], cache, history), path).answer)
    decreases |history|
  {
    hide Query, Right, Consistent, WellFormed;
    if history == [] {
      QueryIsWalk(g, cache, path);
    } else {
      assert history[0] in history;
      QueryIsWalk(g, cache, history[0]);
      AnyHistory(g, Query(g, [], cache, history[0]).cache, history[1..], path);
    }
  }

  // ----- providers with a prefix

  /** What may follow the prefix: nothing, or a well-formed path. */
  ghost predicate IsRemainder(r: seq<string>) {
    r == [] || WellFormed(r)
  }

  /** The key of a whole path, the prefix included; the keys of the walk leave it out. */
  function FullKey(prefix: seq<string>, hops: seq<Hop>): string {
    Join(prefix, '.') + if hops == [] then "" else "." + Key(hops)
  }

  /** The walk along `hops` meets the key under which the whole path with the hops `other` is stored. */
  ghost predicate Clash(prefix: seq<string>, hops: seq<Hop>, other: seq<Hop>) {
    exists m :: 0 < m <= |hops| && Key(hops[..m]) == FullKey(prefix, other)
  }

  ghost predicate NoClash(prefix: seq<string>, rs: set<seq<string>>) {
    forall r, r' :: r in rs && r' in rs ==> !Clash(prefix, Hops(r), Hops(r'))
  }

  /** The keys that walks along the remainders meet. */
  ghost function WalkKeys(rs: set<seq<string>>): Keys {
    iset r, m | r in rs && 0 < m <= |Hops(r)| :: Key(Hops(r)[..m])
  }

  /** The value stored for a whole path. */
  function Stored<Obj>(g: Graph<Obj>, hops: seq<Hop>): Obj {
    if hops == [] then g.nil else Recorded(g, hops)
  }

  /** Walk keys and whole paths hold what the plain walk finds. */
  ghost predicate Held<Obj(!new)>(g: Graph<Obj>, prefix: seq<string>, rs: set<seq<string>>, cache: Cache<Obj>) {
    && Consistent(g, WalkKeys(rs), cache)
    && forall r :: r in rs && FullKey(prefix, Hops(r)) in cache ==>
                     cache[FullKey(prefix, Hops(r))] == Stored(g, Hops(r))
  }

  lemma {:induction false} JoinConcat(a: seq<string>, b: seq<string>)
    requires a != []
    ensures Join(a + b, '.') == if b == [] then Join(a, '.') else Join(a, '.') + ['.'] + Join(b, '.')
    decreases |a|
  {
    if b == [] {
      assert a + b == a;
    } else if |a| == 1 {
      assert (a + b)[1..] == b;
    } else {
      assert (a + b)[1..] == a[1..] + b;
      JoinConcat(a[1..], b);
      var x, y := Join(a[1..], '.'), Join(b, '.');
      assert a[0] + ['.'] + (x + ['.'] + y) == (a[0] + ['.'] + x) + ['.'] + y;
    }
  }

  /** The joined path of a prefix and a remainder. */
  lemma FullPath(prefix: seq<string>, r: seq<string>)
    requires prefix != [] && IsRemainder(r)
    ensures Join(prefix + r, '.') == FullKey(prefix, Hops(r)) && GoodHops(Hops(r)) && (Hops(r) == [] <==> r == [])
  {
    hide Key, Parse, WellFormedElement, Join;
    JoinConcat(prefix, r);
    if r == [] {
      NoHops(r);
      assert Join(prefix, '.') + "" == Join(prefix, '.');
    } else {
      PathKey(r);
      HopsAreSome(r);
      assert Join(prefix, '.') + ['.'] + Key(Hops(r)) == Join(prefix, '.') + ("." + Key(Hops(r)));
    }
  }

  /** Different remainders are stored under different keys. */
  lemma FullKeyIsInjective(prefix: seq<string>, a: seq<Hop>, b: seq<Hop>)
    requires GoodHops(a) && GoodHops(b) && FullKey(prefix, a) == FullKey(prefix, b)
    ensures a == b
  {
    hide Key, Join, GoodHops;
    var j := Join(prefix, '.');
    assert FullKey(prefix, a)[|j|..] == if a == [] then "" else "." + Key(a);
    assert FullKey(prefix, b)[|j|..] == if b == [] then "" else "." + Key(b);
    if a != [] && b != [] {
      assert ("." + Key(a))[1..] == Key(a) && ("." + Key(b))[1..] == Key(b);
      KeyIsInjective(a, b);
    }
  }

  lemma WalkKeysOf(rs: set<seq<string>>, r: seq<string>)
    requires r in rs
    ensures KeysOf(Hops(r), 0, WalkKeys(rs))
  {
    hide Key, Hops;
  }

  /** Whole paths are not stored under walk keys. */
  lemma ApartKeys(prefix: seq<string>, rs: set<seq<string>>, r: seq<string>)
    requires NoClash(prefix, rs) && r in rs
    ensures FullKey(prefix, Hops(r)) !in WalkKeys(rs)
  {
    hide Key, Hops, FullKey;
  }

  lemma HeldAfterWalk<Obj(!new)>(g: Graph<Obj>, prefix: seq<string>, rs: set<seq<string>>, cache: Cache<Obj>, cache': Cache<Obj>)
    requires NoClash(prefix, rs) && Held(g, prefix, rs, cache)
    requires Consistent(g, WalkKeys(rs), cache') && Grows(WalkKeys(rs), cache, cache')
    ensures Held(g, prefix, rs, cache')
  {
    hide Key, Hops, FullKey, WalkKeys, Consistent, NoClash;
    forall r | r in rs && FullKey(prefix, Hops(r)) in cache'
      ensures cache'[FullKey(prefix, Hops(r))] == Stored(g, Hops(r))
    {
      ApartKeys(prefix, rs, r);
    }
  }

  lemma HeldAfterStore<Obj(!new)>(g: Graph<Obj>, prefix: seq<string>, rs: set<seq<string>>, cache: Cache<Obj>, r: seq<string>)
    requires prefix != [] && NoClash(prefix, rs) && Held(g, prefix, rs, cache) && r in rs
    requires forall r :: r in rs ==> IsRemainder(r)
    ensures Held(g, prefix, rs, cache[FullKey(prefix, Hops(r)) := Stored(g, Hops(r))])
  {
    hide Key, Hops, FullKey, WalkKeys, NoClash, GoodHops, Recorded, IsRemainder;
    ApartKeys(prefix, rs, r);
    FullPath(prefix, r);
    forall other | other in rs && FullKey(prefix, Hops(other)) == FullKey(prefix, Hops(r))
      ensures Hops(other) == Hops(r)
    {
      FullPath(prefix, other);
      FullKeyIsInjective(prefix, Hops(other), Hops(r));
    }
  }

  /** One query on a provider with a prefix. */
  lemma QueryBehindPrefix<Obj(!new)>(g: Graph<Obj>, prefix: seq<string>, rs: set<seq<string>>, cache: Cache<Obj>, r: seq<string>)
    requires NilHasNoFields(g) && prefix != [] && NoClash(prefix, rs) && Held(g, prefix, rs, cache) && r in rs
    requires forall r :: r in rs ==> IsRemainder(r)
    ensures var o := Query(g, prefix, cache, prefix + r);
            && Held(g, prefix, rs, o.cache) && Right(g, r, o.answer)
            && (o.answer.Value? && prefix + r != prefix && FullKey(prefix, Hops(r)) !in cache ==>
                  forall m :: 0 < m <= |Hops(r)| ==> Key(Hops(r)[..m]) in o.cache)
  {
    hide Key, Hops, FullKey, WalkKeys, NoClash, GoodHops, Recorded, Walk, Parse, Join, Held, WellFormed;
    FullPath(prefix, r);
    HeldParts(g, prefix, rs, cache, r);
    assert (prefix + r)[|prefix|..] == r && prefix <= prefix + r;
    var full := FullKey(prefix, Hops(r));
    RecordedIs(g, Hops(r));
    if full !in cache {
      if r == [] {
        HeldAfterStore(g, prefix, rs, cache, r);
      } else {
        WalkKeysOf(rs, r);
        WalkFromRoot(g, WalkKeys(rs), cache, r);
        var o := WalkCached(g, cache, g.root, g.nil, "", r);
        HeldAfterWalk(g, prefix, rs, cache, o.cache);
        HeldAfterStore(g, prefix, rs, o.cache, r);
      }
    }
  }

  lemma RecordedIs<Obj>(g: Graph<Obj>, hops: seq<Hop>)
    ensures Recorded(g, hops) == match Walk(g, hops) case Some(v) => v case None => g.nil
  {
  }

  lemma HeldParts<Obj(!new)>(g: Graph<Obj>, prefix: seq<string>, rs: set<seq<string>>, cache: Cache<Obj>, r: seq<string>)
    requires Held(g, prefix, rs, cache) && r in rs
    ensures Consistent(g, WalkKeys(rs), cache)
    ensures FullKey(prefix, Hops(r)) in cache ==> cache[FullKey(prefix, Hops(r))] == Stored(g, Hops(r))
  {
    hide FullKey, Hops, WalkKeys, Consistent;
  }

  /** Every path of the history has another prefix, or one of the remainders behind the prefix. */
  ghost predicate Queries(prefix: seq<string>, rs: set<seq<string>>, history: seq<seq<string>>) {
    forall p :: p in history && prefix <= p ==> p[|prefix|..] in rs
  }

  /** With a prefix, and no clash among the remainders queried, the answer after any history is right. */
  lemma {:induction false} AnyPrefixedHistory<Obj(!new)>(g: Graph<Obj>, prefix: seq<string>, rs: set<seq<string>>,
                                                         cache: Cache<Obj>, history: seq<seq<string>>, r: seq<string>)
    requires NilHasNoFields(g) && prefix != [] && NoClash(prefix, rs) && Held(g, prefix, rs, cache) && r in rs
    requires forall r :: r in rs ==> IsRemainder(r)
    requires Queries(prefix, rs, history)
    ensures Right(g, r, Query(g, prefix, After(g, prefix, cache, history), prefix + r).answer)
    decreases |history|
  {
    hide Query, Right, NoClash, Held, IsRemainder;
    if history == [] {
      QueryBehindPrefix(g, prefix, rs, cache, r);
    } else {
      var p := history[0];
      assert p in history;
      if prefix <= p {
        assert p == prefix + p[|prefix|..];
        QueryBehindPrefix(g, prefix, rs, cache, p[|prefix|..]);
      } else {
        OtherPrefix(g, prefix, cache, p);
      }
      AnyPrefixedHistory(g, prefix, rs, Query(g, prefix, cache, p).cache, history[1..], r);
    }
  }

  lemma OtherPrefix<Obj>(g: Graph<Obj>, prefix: seq<string>, cache: Cache<Obj>, path: seq<string>)
    requires !(prefix <= path)
    ensures Query(g, prefix, cache, path).cache == cache
  {
    hide WalkCached, Join;
  }

  // ----- a clash is answered wrongly

  /** Objects that remember how they were reached. */
  function TrailField(o: Option<seq<string>>, name: string): Option<Option<seq<string>>> {
    match o case None => None case Some(trail) => Some(Some(trail + [name]))
  }

  const TRAILS: Graph<Option<seq<string>>> := Graph(Some([]), None, TrailField)

  lemma {:induction false} TrailWalk(hops: seq<Hop>)
    ensures var o := Walk(TRAILS, hops); o.Some? && o.value.Some? && |o.value.value| == |hops|
    decreases |hops|
  {
    if hops != [] {
      TrailWalk(hops[..|hops| - 1]);
    }
  }

  /** The key of a walk is that of a whole path only if the walk goes along the prefix's own text first. */
  lemma {:induction false} ClashIsPrefixAgain(prefix: seq<string>, k: seq<Hop>, other: seq<Hop>)
    requires GoodHops(k) && GoodHops(other) && k != []
    ensures Key(k) == FullKey(prefix, other) <==>
            |other| < |k| && k[|k| - |other|..] == other && Key(k[..|k| - |other|]) == Join(prefix, '.')
    decreases |other|
  {
    hide Key, Join;
    if other == [] {
      assert k[..|k|] == k && k[|k|..] == [];
      assert Join(prefix, '.') + "" == Join(prefix, '.');
    } else {
      KeyShape(k);
      KeyShape(other);
      var k', x, o', y := k[..|k| - 1], k[|k| - 1], other[..|other| - 1], other[|other| - 1];
      FullKeySnoc(prefix, other);
      KeyCut(k, prefix, other);
      if k' != [] {
        ClashIsPrefixAgain(prefix, k', o');
        if |other| < |k| {
          assert k'[..|k'| - |o'|] == k[..|k| - |other|];
          assert k[|k| - |other|..] == k'[|k'| - |o'|..] + [x];
          assert other == o' + [y];
        }
      }
    }
  }

  /** The key of a whole path, by its last hop. */
  lemma FullKeySnoc(prefix: seq<string>, other: seq<Hop>)
    requires GoodHops(other) && other != []
    ensures var f, o', y := FullKey(prefix, other), other[..|other| - 1], other[|other| - 1];
            && f != "" && (f[|f| - 1] == ']' <==> y.Selector?)
            && (y.Selector? ==> o' != [] && f[..|f| - 1] == FullKey(prefix, o') + ['['] + y.s && '[' !in y.s)
            && (y.Name? ==> f == FullKey(prefix, o') + ['.'] + y.s && '.' !in y.s)
  {
    hide Key, Join;
    KeyShape(other);
    var j, o', y := Join(prefix, '.'), other[..|other| - 1], other[|other| - 1];
    var f, key := FullKey(prefix, other), Key(other);
    assert f == j + ("." + key) && f[|f| - 1] == key[|key| - 1];
    if y.Selector? {
      assert f[..|f| - 1] == j + ("." + key[..|key| - 1]);
      assert j + ("." + (Key(o') + ['['] + y.s)) == (j + ("." + Key(o'))) + ['['] + y.s;
    } else if o' != [] {
      assert j + ("." + (Key(o') + ['.'] + y.s)) == (j + ("." + Key(o'))) + ['.'] + y.s;
    } else {
      assert j + "" == j && j + ("." + y.s) == j + ['.'] + y.s;
    }
  }

  /** Equal keys end in the same hop, and are equal before it. */
  lemma KeyCut(k: seq<Hop>, prefix: seq<string>, other: seq<Hop>)
    requires GoodHops(k) && GoodHops(other) && k != [] && other != []
    ensures Key(k) == FullKey(prefix, other) <==>
            && k[..|k| - 1] != [] && k[|k| - 1] == other[|other| - 1]
            && Key(k[..|k| - 1]) == FullKey(prefix, other[..|other| - 1])
  {
    hide Key, Join, FullKey, GoodHops, EndsIn;
    KeyEnds(k);
    FullKeyEnds(prefix, other);
    CutLast(Key(k), Key(k[..|k| - 1]), k[..|k| - 1] == [], k[|k| - 1],
            FullKey(prefix, other), FullKey(prefix, other[..|other| - 1]), other[|other| - 1]);
  }

  /** The key `a` is that of the hop `x` behind the key `prev`, or of `x` alone. */
  predicate EndsIn(a: string, prev: string, alone: bool, x: Hop) {
    && a != "" && (a[|a| - 1] == ']' <==> x.Selector?)
    && (x.Selector? ==> !alone && a[..|a| - 1] == prev + ['['] + x.s && '[' !in x.s)
    && (x.Name? ==> '.' !in x.s && a == if alone then x.s else prev + ['.'] + x.s)
  }

  lemma KeyEnds(k: seq<Hop>)
    requires GoodHops(k) && k != []
    ensures EndsIn(Key(k), Key(k[..|k| - 1]), k[..|k| - 1] == [], k[|k| - 1])
  {
    hide Key;
    KeyShape(k);
  }

  lemma FullKeyEnds(prefix: seq<string>, other: seq<Hop>)
    requires GoodHops(other) && other != []
    ensures EndsIn(FullKey(prefix, other), FullKey(prefix, other[..|other| - 1]), false, other[|other| - 1])
  {
    hide FullKey;
    FullKeySnoc(prefix, other);
  }

  lemma CutLast(a: string, prev: string, alone: bool, x: Hop, b: string, prev': string, y: Hop)
    requires EndsIn(a, prev, alone, x) && EndsIn(b, prev', false, y)
    ensures a == b <==> !alone && x == y && prev == prev'
  {
    if x.Selector? && y.Selector? {
      CutBracket(a, prev, x.s, b, prev', y.s);
    } else if x.Name? && y.Name? {
      if alone {
        HasDot(prev', y.s);
      } else {
        CutDot(prev, x.s, prev', y.s);
      }
    }
  }

  lemma CutDot(u: string, s: string, v: string, t: string)
    requires '.' !in s && '.' !in t
    ensures u + ['.'] + s == v + ['.'] + t <==> u == v && s == t
  {
    if u + ['.'] + s == v + ['.'] + t {
      LastSeparator(u, s, v, t, '.');
    }
  }

  lemma HasDot(v: string, t: string)
    ensures '.' in v + ['.'] + t
  {
  }

  lemma CutBracket(a: string, u: string, s: string, b: string, v: string, t: string)
    requires a != "" && a[|a| - 1] == ']' && a[..|a| - 1] == u + ['['] + s && '[' !in s
    requires b != "" && b[|b| - 1] == ']' && b[..|b| - 1] == v + ['['] + t && '[' !in t
    ensures a == b <==> u == v && s == t
  {
    assert a == a[..|a| - 1] + [a[|a| - 1]];
    assert b == b[..|b| - 1] + [b[|b| - 1]];
    if a == b {
      LastSeparator(u, s, v, t, '[');
    }
  }

  /** After a walk that meets the key of another whole path, that path is answered with the walk's object. */
  lemma ClashIsAnsweredWrongly(prefix: seq<string>, r: seq<string>, other: seq<string>)
    requires prefix != [] && IsRemainder(r) && IsRemainder(other) && Clash(prefix, Hops(r), Hops(other))
    ensures !Right(TRAILS, other, Query(TRAILS, prefix, After(TRAILS, prefix, map[], [prefix + r]), prefix + other).answer)
  {
    hide Key, Hops, FullKey, WalkCached, Parse, Join, WellFormed, Walk, GoodHops;
    var h, o := Hops(r), Hops(other);
    var m :| 0 < m <= |h| && Key(h[..m]) == FullKey(prefix, o);
    FullPath(prefix, r);
    FullPath(prefix, other);
    var rs := {r};
    AloneNoClash(prefix, r);
    HeldAtStart(TRAILS, prefix, rs);
    assert NilHasNoFields(TRAILS);
    QueryBehindPrefix(TRAILS, prefix, rs, map[], r);
    var first := Query(TRAILS, prefix, map[], prefix + r);
    TrailWalk(h);
    TrailWalk(h[..m]);
    TrailWalk(o);
    assert first.answer.Value?;
    var key := Key(h[..m]);
    assert key in first.cache;
    GoodFront(h, m);
    WalkKeysOf(rs, r);
    HeldParts(TRAILS, prefix, rs, first.cache, r);
    assert first.cache[key] == Recorded(TRAILS, h[..m]);
    ClashIsPrefixAgain(prefix, h[..m], o);
    AfterOne(TRAILS, prefix, prefix + r);
  }

  lemma AfterOne<Obj>(g: Graph<Obj>, prefix: seq<string>, path: seq<string>)
    ensures After(g, prefix, map[], [path]) == Query(g, prefix, map[], path).cache
  {
    hide Query;
    assert [path][1..] == [];
  }

  lemma GoodFront(hops: seq<Hop>, m: nat)
    requires GoodHops(hops) && 0 < m <= |hops|
    ensures GoodHops(hops[..m]) && hops[..m] != []
  {
    assert hops[..m][0] == hops[0];
    assert forall h :: h in hops[..m] ==> h in hops;
  }

  lemma HeldAtStart<Obj(!new)>(g: Graph<Obj>, prefix: seq<string>, rs: set<seq<string>>)
    ensures Held(g, prefix, rs, map[])
  {
    hide Key, Hops, FullKey, WalkKeys;
  }

  /** A remainder does not clash with itself. */
  lemma AloneNoClash(prefix: seq<string>, r: seq<string>)
    requires prefix != [] && IsRemainder(r)
    ensures NoClash(prefix, {r})
  {
    hide Key, Hops, FullKey, Parse, Join, WellFormed, GoodHops;
    FullPath(prefix, r);
    var h := Hops(r);
    forall m | 0 < m <= |h| ensures Key(h[..m]) != FullKey(prefix, h) {
      GoodFront(h, m);
      ClashIsPrefixAgain(prefix, h[..m], h);
    }
  }

  /**
   With a prefix, all histories over a set of remainders are answered rightly if and only if
   no walk along one of them meets the key of another whole path.
   */
  lemma PrefixedExactly(prefix: seq<string>, rs: set<seq<string>>)
    requires prefix != [] && forall r :: r in rs ==> IsRemainder(r)
    ensures NoClash(prefix, rs) <==>
            forall history, r :: Queries(prefix, rs, history) && r in rs ==>
              Right(TRAILS, r, Query(TRAILS, prefix, After(TRAILS, prefix, map[], history), prefix + r).answer)
  {
    hide Query, Right, Clash, IsRemainder, Hops;
    if NoClash(prefix, rs) {
      assert NilHasNoFields(TRAILS);
      HeldAtStart(TRAILS, prefix, rs);
      forall history, r | Queries(prefix, rs, history) && r in rs
        ensures Right(TRAILS, r, Query(TRAILS, prefix, After(TRAILS, prefix, map[], history), prefix + r).answer)
      {
        AnyPrefixedHistory(TRAILS, prefix, rs, map[], history, r);
      }
    } else {
      var r, other :| r in rs && other in rs && Clash(prefix, Hops(r), Hops(other));
      ClashIsAnsweredWrongly(prefix, r, other);
      assert (prefix + r)[|prefix|..] == r;
      assert Queries(prefix, rs, [prefix + r]);
    }
  }

  /** Remainders that never go along the prefix's own text are safe. */
  lemma OtherTextIsSafe(prefix: seq<string>, rs: set<seq<string>>)
    requires prefix != [] && forall r :: r in rs ==> IsRemainder(r)
    requires forall r, j :: r in rs && 0 < j <= |Hops(r)| ==> Key(Hops(r)[..j]) != Join(prefix, '.')
    ensures NoClash(prefix, rs)
  {
    hide Key, Hops, FullKey, Parse, Join, WellFormed, GoodHops;
    forall r, other, m | r in rs && other in rs && 0 < m <= |Hops(r)|
      ensures Key(Hops(r)[..m]) != FullKey(prefix, Hops(other))
    {
      var h, o := Hops(r), Hops(other);
      FullPath(prefix, r);
      FullPath(prefix, other);
      GoodFront(h, m);
      ClashIsPrefixAgain(prefix, h[..m], o);
      if |o| < m {
        assert h[..m][..m - |o|] == h[..m - |o|];
      }
    }
  }

  /**
   For every prefix whose text is that of a well-formed path: a path that goes along that
   text once more spoils the path behind it.
   */
  lemma PrefixMixesKeys(prefix: seq<string>, again: seq<string>, r: seq<string>)
    requires prefix != [] && WellFormed(again) && Join(again, '.') == Join(prefix, '.') && IsRemainder(r)
    ensures Clash(prefix, Hops(again + r), Hops(r))
    ensures !Right(TRAILS, r, Query(TRAILS, prefix, After(TRAILS, prefix, map[], [prefix + (again + r)]), prefix + r).answer)
  {
    hide Key, Query, Right, FullKey, Parse, Join, WellFormedElement, After;
    var path := again + r;
    assert forall fld :: fld in path ==> fld in again || fld in r;
    FullPath(prefix, r);
    FullPath(again, r);
    SameText(prefix, again, Hops(r));
    PathKey(path);
    HopsAreSome(path);
    var h := Hops(path);
    assert h[..|h|] == h;
    ClashIsAnsweredWrongly(prefix, path, r);
  }

  lemma SameText(a: seq<string>, b: seq<string>, hops: seq<Hop>)
    requires Join(a, '.') == Join(b, '.')
    ensures FullKey(a, hops) == FullKey(b, hops)
  {
  }

  // ----- paths with another prefix

  /** A path that does not start with the prefix is an error, unless its joined text happens to be a key of the cache. */
  lemma OtherPrefixAnswer<Obj>(g: Graph<Obj>, prefix: seq<string>, cache: Cache<Obj>, path: seq<string>)
    requires !(prefix <= path)
    ensures Query(g, prefix, cache, path).answer ==
            if Join(path, '.') in cache then Value(cache[Join(path, '.')]) else Failed
  {
    hide WalkCached, Join;
  }

  ghost predicate KeepsKeys<Obj(!new)>(cache: Cache<Obj>, cache': Cache<Obj>) {
    forall key :: key in cache ==> key in cache'
  }

  lemma {:induction false} WalkKeepsKeys<Obj(!new)>(g: Graph<Obj>, cache: Cache<Obj>, obj: Obj, data: Obj, prev: string,
                                                    path: seq<string>)
    ensures KeepsKeys(cache, WalkCached(g, cache, obj, data, prev, path).cache)
    decreases |path|
  {
    hide Parse;
    if path != [] && Parse(path[0]).Seg? {
      var seg := Parse(path[0]);
      var key := NameKey(prev, seg.name);
      var o := VisitSegment(g, cache, obj, key, seg);
      if o.answer.Value? {
        WalkKeepsKeys(g, o.cache, o.answer.data, o.answer.data, SegmentKey(key, seg), path[1..]);
      }
    }
  }

  lemma QueryKeepsKeys<Obj(!new)>(g: Graph<Obj>, prefix: seq<string>, cache: Cache<Obj>, path: seq<string>)
    ensures KeepsKeys(cache, Query(g, prefix, cache, path).cache)
  {
    hide WalkCached, Join;
    if prefix <= path {
      WalkKeepsKeys(g, cache, g.root, g.nil, "", path[|prefix|..]);
    }
  }

  lemma {:induction false} AfterKeepsKeys<Obj(!new)>(g: Graph<Obj>, prefix: seq<string>, cache: Cache<Obj>, history: seq<seq<string>>)
    ensures KeepsKeys(cache, After(g, prefix, cache, history))
    decreases |history|
  {
    hide Query;
    if history != [] {
      QueryKeepsKeys(g, prefix, cache, history[0]);
      AfterKeepsKeys(g, prefix, Query(g, prefix, cache, history[0]).cache, history[1..]);
    }
  }

  /** Whatever is in the cache, a walk stores nothing but under its own keys. */
  lemma {:induction false} WalkStoresOwnKeys<Obj(!new)>(g: Graph<Obj>, keys: Keys, cache: Cache<Obj>, obj: Obj, data: Obj,
                                                        hops: seq<Hop>, path: seq<string>)
    requires GoodHops(hops) && forall fld :: fld in path ==> WellFormedElement(fld)
    requires KeysOf(hops + Hops(path), |hops|, keys)
    ensures Grows(keys, cache, WalkCached(g, cache, obj, data, Key(hops), path).cache)
    decreases |path|
  {
    hide Key, VisitSegment, Parse, WellFormedElement, Hops, GoodHops, IsName, IsSelector;
    if path != [] {
      assert path[0] in path;
      var name, sel := ParseWellFormed(path[0]);
      var seg := Seg(name, sel);
      var next := hops + SegmentHops(seg);
      HopsStep(hops, path, seg);
      KeysSplit(next, Hops(path[1..]), |hops|, keys);
      SegmentStoresOwnKeys(g, keys, cache, obj, hops, seg);
      GoodSegment(hops, seg);
      var o := VisitSegment(g, cache, obj, NameKey(Key(hops), name), seg);
      if o.answer.Value? {
        WalkStoresOwnKeys(g, keys, o.cache, o.answer.data, o.answer.data, next, path[1..]);
      }
    }
  }

  lemma SegmentStoresOwnKeys<Obj(!new)>(g: Graph<Obj>, keys: Keys, cache: Cache<Obj>, obj: Obj, hops: seq<Hop>, seg: Segment)
    requires seg.Seg? && KeysOf(hops + SegmentHops(seg), |hops|, keys)
    ensures Grows(keys, cache, VisitSegment(g, cache, obj, NameKey(Key(hops), seg.name), seg).cache)
    ensures Key(hops + SegmentHops(seg)) == SegmentKey(NameKey(Key(hops), seg.name), seg)
  {
    hide Key, Visit, NameKey, SelectorKey, Grows, KeysOf;
    var first, next := hops + [Name(seg.name)], hops + SegmentHops(seg);
    assert next[..|hops| + 1] == first && next[..|next|] == next;
    KeySnoc(hops, Name(seg.name));
    KeyIn(next, |hops|, |hops| + 1, keys);
    KeyIn(next, |hops|, |next|, keys);
    VisitGrows(g, keys, cache, obj, Key(first), seg.name);
    var o := Visit(g, cache, obj, Key(first), seg.name);
    if seg.selector != "" {
      assert next == first + [Selector(seg.selector)];
      KeySnoc(first, Selector(seg.selector));
      if o.answer.Value? {
        VisitGrows(g, keys, o.cache, o.answer.data, Key(next), seg.selector);
        var o' := Visit(g, o.cache, o.answer.data, Key(next), seg.selector);
        GrowsTwice(keys, cache, o.cache, o'.cache);
      }
    }
  }

  lemma KeyIn(hops: seq<Hop>, n: nat, m: nat, keys: Keys)
    requires KeysOf(hops, n, keys) && n < m <= |hops|
    ensures Key(hops[..m]) in keys
  {
    hide Key;
  }

  lemma VisitGrows<Obj(!new)>(g: Graph<Obj>, keys: Keys, cache: Cache<Obj>, obj: Obj, key: string, name: string)
    requires key in keys
    ensures Grows(keys, cache, Visit(g, cache, obj, key, name).cache)
  {
  }

  lemma GrowsTwice<Obj(!new)>(keys: Keys, a: Cache<Obj>, b: Cache<Obj>, c: Cache<Obj>)
    requires Grows(keys, a, b) && Grows(keys, b, c)
    ensures Grows(keys, a, c)
  {
  }

  /** The keys under which queries of the remainders can store something. */
  ghost function QueryKeys(prefix: seq<string>, rs: set<seq<string>>): Keys {
    WalkKeys(rs) + iset r | r in rs :: FullKey(prefix, Hops(r))
  }

  lemma QueryStoresOwnKeys<Obj(!new)>(g: Graph<Obj>, prefix: seq<string>, rs: set<seq<string>>, cache: Cache<Obj>, r: seq<string>)
    requires prefix != [] && r in rs && IsRemainder(r)
    ensures Grows(QueryKeys(prefix, rs), cache, Query(g, prefix, cache, prefix + r).cache)
  {
    hide Key, Hops, FullKey, WalkKeys, GoodHops, Parse, Join, WellFormedElement;
    FullPath(prefix, r);
    assert (prefix + r)[|prefix|..] == r && prefix <= prefix + r;
    WalkKeysOf(rs, r);
    StartOfWalk(g);
    assert GoodHops([]) by { NoBadHops(); }
    assert [] + Hops(r) == Hops(r);
    WalkStoresOwnKeys(g, WalkKeys(rs), cache, g.root, g.nil, [], r);
  }

  lemma NoBadHops()
    ensures GoodHops([])
  {
  }

  /** After any history, the cache has no other keys than those of the paths queried. */
  lemma {:induction false} AfterStoresOwnKeys<Obj(!new)>(g: Graph<Obj>, prefix: seq<string>, rs: set<seq<string>>,
                                                         cache: Cache<Obj>, history: seq<seq<string>>)
    requires prefix != [] && Queries(prefix, rs, history) && forall r :: r in rs ==> IsRemainder(r)
    requires forall key :: key in cache ==> key in QueryKeys(prefix, rs)
    ensures forall key :: key in After(g, prefix, cache, history) ==> key in QueryKeys(prefix, rs)
    decreases |history|
  {
    hide Query, QueryKeys, IsRemainder;
    if history != [] {
      var p := history[0];
      assert p in history;
      if prefix <= p {
        assert p == prefix + p[|prefix|..];
        QueryStoresOwnKeys(g, prefix, rs, cache, p[|prefix|..]);
      } else {
        OtherPrefix(g, prefix, cache, p);
      }
      AfterStoresOwnKeys(g, prefix, rs, Query(g, prefix, cache, p).cache, history[1..]);
    }
  }

  /**
   After any history, a path that starts with another prefix is an error unless its joined text
   is a key of a path queried; and no query with another prefix stores anything.
   */
  lemma ForeignPathFails<Obj(!new)>(g: Graph<Obj>, prefix: seq<string>, rs: set<seq<string>>, history: seq<seq<string>>,
                                    path: seq<string>)
    requires prefix != [] && Queries(prefix, rs, history) && forall r :: r in rs ==> IsRemainder(r)
    requires !(prefix <= path) && Join(path, '.') !in QueryKeys(prefix, rs)
    ensures Query(g, prefix, After(g, prefix, map[], history), path) == Outcome(Failed, After(g, prefix, map[], history))
  {
    hide Query, QueryKeys, IsRemainder, Queries, Join;
    AfterStoresOwnKeys(g, prefix, rs, map[], history);
    OtherPrefixAnswer(g, prefix, After(g, prefix, map[], history), path);
    OtherPrefix(g, prefix, After(g, prefix, map[], history), path);
  }

  /** A whole path is stored only once its walk is. */
  ghost predicate WalkedFirst<Obj(!new)>(prefix: seq<string>, rs: set<seq<string>>, cache: Cache<Obj>) {
    forall r, m :: r in rs && FullKey(prefix, Hops(r)) in cache && 0 < m <= |Hops(r)| ==> Key(Hops(r)[..m]) in cache
  }

  lemma QueryWalksFirst<Obj(!new)>(g: Graph<Obj>, prefix: seq<string>, rs: set<seq<string>>, cache: Cache<Obj>, r: seq<string>)
    requires NilHasNoFields(g) && prefix != [] && NoClash(prefix, rs) && Held(g, prefix, rs, cache) && r in rs
    requires WalkedFirst(prefix, rs, cache) && forall r :: r in rs ==> IsRemainder(r)
    ensures WalkedFirst(prefix, rs, Query(g, prefix, cache, prefix + r).cache)
    ensures Query(g, prefix, cache, prefix + r).answer.Value? ==>
              FullKey(prefix, Hops(r)) in Query(g, prefix, cache, prefix + r).cache
  {
    hide Key, Hops, FullKey, WalkKeys, NoClash, GoodHops, Recorded, Walk, Parse, Join, Held, WellFormed, IsRemainder;
    FullPath(prefix, r);
    QueryKeepsKeys(g, prefix, cache, prefix + r);
    QueryBehindPrefix(g, prefix, rs, cache, r);
    HeldParts(g, prefix, rs, cache, r);
    assert (prefix + r)[|prefix|..] == r && prefix <= prefix + r;
    assert prefix + r == prefix <==> r == [];
    var full, after := FullKey(prefix, Hops(r)), Query(g, prefix, cache, prefix + r).cache;
    forall other, m | other in rs && FullKey(prefix, Hops(other)) in after && 0 < m <= |Hops(other)|
      ensures Key(Hops(other)[..m]) in after
    {
      FullPath(prefix, other);
      if FullKey(prefix, Hops(other)) !in cache {
        StoredFull(g, prefix, rs, cache, r, other);
        FullKeyIsInjective(prefix, Hops(other), Hops(r));
      }
    }
  }

  /** A query stores no whole path but its own. */
  lemma StoredFull<Obj(!new)>(g: Graph<Obj>, prefix: seq<string>, rs: set<seq<string>>, cache: Cache<Obj>, r: seq<string>, other: seq<string>)
    requires NilHasNoFields(g) && prefix != [] && NoClash(prefix, rs) && r in rs && other in rs
    requires forall r :: r in rs ==> IsRemainder(r)
    requires var full := FullKey(prefix, Hops(other)); full !in cache && full in Query(g, prefix, cache, prefix + r).cache
    ensures FullKey(prefix, Hops(other)) == FullKey(prefix, Hops(r))
    ensures Query(g, prefix, cache, prefix + r).answer.Value? && FullKey(prefix, Hops(r)) !in cache
  {
    hide Key, Hops, FullKey, WalkKeys, NoClash, GoodHops, Parse, Join, WellFormedElement;
    FullPath(prefix, r);
    ApartKeys(prefix, rs, other);
    assert (prefix + r)[|prefix|..] == r && prefix <= prefix + r;
    WalkKeysOf(rs, r);
    StartOfWalk(g);
    NoBadHops();
    assert [] + Hops(r) == Hops(r);
    WalkStoresOwnKeys(g, WalkKeys(rs), cache, g.root, g.nil, [], r);
  }

  lemma {:induction false} AfterStoresAll<Obj(!new)>(g: Graph<Obj>, prefix: seq<string>, rs: set<seq<string>>,
                                                     cache: Cache<Obj>, history: seq<seq<string>>, r: seq<string>)
    requires NilHasNoFields(g) && prefix != [] && NoClash(prefix, rs) && Held(g, prefix, rs, cache) && r in rs
    requires WalkedFirst(prefix, rs, cache) && Queries(prefix, rs, history) && forall r :: r in rs ==> IsRemainder(r)
    requires prefix + r in history || FullKey(prefix, Hops(r)) in cache
    requires r == [] || Walk(g, Hops(r)).Some?
    ensures WalkedFirst(prefix, rs, After(g, prefix, cache, history))
    ensures FullKey(prefix, Hops(r)) in After(g, prefix, cache, history)
    decreases |history|
  {
    hide Query, NoClash, Held, WalkedFirst, IsRemainder, FullKey, Walk, Hops;
    if history != [] {
      var p := history[0];
      assert p in history;
      if prefix <= p {
        assert p == prefix + p[|prefix|..];
        QueryBehindPrefix(g, prefix, rs, cache, p[|prefix|..]);
        QueryWalksFirst(g, prefix, rs, cache, p[|prefix|..]);
      } else {
        OtherPrefix(g, prefix, cache, p);
      }
      QueryKeepsKeys(g, prefix, cache, p);
      if p == prefix + r {
        assert p[|prefix|..] == r;
        assert Query(g, prefix, cache, p).answer.Value?;
      }
      AfterStoresAll(g, prefix, rs, Query(g, prefix, cache, p).cache, history[1..], r);
    }
  }

  /**
   Which paths with another prefix are errors: after a history of remainders that do not clash
   and that the plain walk can follow, exactly those whose joined text is no key of theirs.
   */
  lemma ForeignPathExactly<Obj(!new)>(g: Graph<Obj>, prefix: seq<string>, rs: set<seq<string>>, history: seq<seq<string>>,
                                      path: seq<string>)
    requires NilHasNoFields(g) && prefix != [] && NoClash(prefix, rs) && forall r :: r in rs ==> IsRemainder(r)
    requires Queries(prefix, rs, history) && forall r :: r in rs ==> prefix + r in history
    requires forall r :: r in rs && r != [] ==> Walk(g, Hops(r)).Some?
    requires !(prefix <= path)
    ensures Query(g, prefix, After(g, prefix, map[], history), path).answer == Failed <==>
            Join(path, '.') !in QueryKeys(prefix, rs)
  {
    hide Query, IsRemainder, Queries, Join, FullKey, Hops, Walk, NoClash, After;
    var after := After(g, prefix, map[], history);
    OtherPrefixAnswer(g, prefix, after, path);
    if Join(path, '.') in QueryKeys(prefix, rs) {
      HeldAtStart(g, prefix, rs);
      if exists r :: r in rs && Join(path, '.') == FullKey(prefix, Hops(r)) {
        var r :| r in rs && Join(path, '.') == FullKey(prefix, Hops(r));
        AfterStoresAll(g, prefix, rs, map[], history, r);
      } else {
        var r, m :| r in rs && 0 < m <= |Hops(r)| && Join(path, '.') == Key(Hops(r)[..m]);
        AfterStoresAll(g, prefix, rs, map[], history, r);
      }
    } else {
      ForeignPathFails(g, prefix, rs, history, path);
    }
  }

  // ----- the first time a path is asked for

  /** Keys that a walk has not met yet. */
  ghost predicate IsFresh<Obj(!new)>(cache: Cache<Obj>, hops: seq<Hop>, n: nat) {
    forall m :: n < m <= |hops| ==> Key(hops[..m]) !in cache
  }

  lemma FreshVisit<Obj(!new)>(g: Graph<Obj>, cache: Cache<Obj>, hops: seq<Hop>, h: Hop, more: seq<Hop>)
    requires GoodHops(hops + [h] + more) && Walk(g, hops).Some? && IsFresh(cache, hops + [h] + more, |hops|)
    ensures var o := Visit(g, cache, Walk(g, hops).value, Key(hops + [h]), h.s);
            && IsFresh(o.cache, hops + [h] + more, |hops| + 1)
            && o.answer == match Walk(g, hops + [h]) case Some(v) => Value(v) case None => Failed
  {
    hide Key, Walk, GoodHops;
    var all, next := hops + [h] + more, hops + [h];
    WalkSnoc(g, hops, h);
    assert all[..|hops| + 1] == next;
    var o := Visit(g, cache, Walk(g, hops).value, Key(next), h.s);
    forall m | |hops| + 1 < m <= |all| ensures Key(all[..m]) !in o.cache {
      GoodFront(all, m);
      GoodFront(all, |hops| + 1);
      if Key(all[..m]) == Key(next) {
        KeyIsInjective(all[..m], next);
      }
    }
  }

  lemma FreshSegment<Obj(!new)>(g: Graph<Obj>, cache: Cache<Obj>, hops: seq<Hop>, seg: Segment, more: seq<Hop>)
    requires seg.Seg? && GoodHops(hops + SegmentHops(seg) + more)
    requires Walk(g, hops).Some? && IsFresh(cache, hops + SegmentHops(seg) + more, |hops|)
    ensures var next := hops + SegmentHops(seg);
            var o := VisitSegment(g, cache, Walk(g, hops).value, NameKey(Key(hops), seg.name), seg);
            && IsFresh(o.cache, next + more, if o.answer.Value? then |next| else |next + more|)
            && o.answer == (match Walk(g, next) case Some(v) => Value(v) case None => Failed)
            && Key(next) == SegmentKey(NameKey(Key(hops), seg.name), seg)
  {
    hide Key, Walk, GoodHops, Visit, IsFresh;
    var first, next := hops + [Name(seg.name)], hops + SegmentHops(seg);
    KeySnoc(hops, Name(seg.name));
    NothingFresh(g, next + more);
    if seg.selector == "" {
      FreshVisit(g, cache, hops, Name(seg.name), more);
    } else {
      var h := Selector(seg.selector);
      assert hops + [Name(seg.name)] + ([h] + more) == next + more;
      assert next == first + [h] && first + [h] + more == next + more;
      FreshVisit(g, cache, hops, Name(seg.name), [h] + more);
      KeySnoc(first, h);
      WalkSnoc(g, first, h);
      var o := Visit(g, cache, Walk(g, hops).value, Key(first), seg.name);
      if o.answer.Value? {
        FreshVisit(g, o.cache, first, h, more);
      }
    }
  }

  lemma NothingFresh<Obj(!new)>(g: Graph<Obj>, hops: seq<Hop>)
    ensures forall cache: Cache<Obj> :: IsFresh(cache, hops, |hops|)
  {
  }

  lemma {:induction false} FreshWalk<Obj(!new)>(g: Graph<Obj>, cache: Cache<Obj>, hops: seq<Hop>, data: Obj, path: seq<string>)
    requires GoodHops(hops) && Walk(g, hops).Some? && (path == [] ==> data == Walk(g, hops).value)
    requires forall fld :: fld in path ==> WellFormedElement(fld)
    requires IsFresh(cache, hops + Hops(path), |hops|)
    ensures WalkCached(g, cache, Walk(g, hops).value, data, Key(hops), path).answer ==
            match Walk(g, hops + Hops(path)) case Some(v) => Value(v) case None => Failed
    decreases |path|
  {
    hide Key, Walk, VisitSegment, Parse, WellFormedElement, Hops, GoodHops, IsName, IsSelector, IsFresh;
    if path == [] {
      NoHops(path);
      assert hops + [] == hops;
    } else {
      assert path[0] in path;
      var name, sel := ParseWellFormed(path[0]);
      var seg := Seg(name, sel);
      var next, more := hops + SegmentHops(seg), Hops(path[1..]);
      HopsStep(hops, path, seg);
      GoodSegment(hops, seg);
      HopsAreGood(next, path[1..]);
      FreshSegment(g, cache, hops, seg, more);
      var o := VisitSegment(g, cache, Walk(g, hops).value, NameKey(Key(hops), name), seg);
      if o.answer.Value? {
        FreshWalk(g, o.cache, next, o.answer.data, path[1..]);
      } else {
        FailureStays(g, next, more);
      }
    }
  }

  /** The first query of a path is answered with what the plain walk finds, and with an error if it finds nothing. */
  lemma FirstQuery<Obj(!new)>(g: Graph<Obj>, path: seq<string>)
    requires WellFormed(path)
    ensures Query(g, [], map[], path).answer == match Walk(g, Hops(path)) case Some(v) => Value(v) case None => Failed
  {
    hide Key, Walk, Parse, WellFormedElement, Hops, Join, GoodHops;
    assert path[0..] == path && [] + Hops(path) == Hops(path);
    StartOfWalk(g);
    NoBadHops();
    FreshWalk(g, map[], [], g.nil, path);
  }

  /** Elements with a bracket that is not closed are errors, and those that end in one crash. */
  lemma MalformedElement<Obj>(g: Graph<Obj>, name: string, sel: string)
    requires '[' !in name && '[' !in sel && '.' !in name && '.' !in sel
    ensures sel == "" ==> Query(g, [], map[], [name + "[" + sel]).answer == Crashed
    ensures sel != "" && sel[|sel| - 1] != ']' ==> Query(g, [], map[], [name + "[" + sel]).answer == Failed
  {
    hide Join;
    var fld := name + "[" + sel;
    SplitBehind(name, '[', sel);
    SplitBehind(sel, '[', "");
    assert fld == name + ['['] + sel;
    assert [fld][0..] == [fld];
  }
}
