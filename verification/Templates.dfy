/**
 Template inflation: fields that name a template are replaced, in place and again at the
 same index, by the fields of that template.
 */
module Templates {
  import opened Wrappers

  /** A template field's id is missing when its value cannot be computed. */
  datatype Field = Plain(name: string) | Template(id: Option<string>)

  datatype Error = NoId | NoTemplate(id: string) | EmptyTemplate(id: string)

  type Table = map<string, seq<Field>>

  /** The field names a template of the table. */
  predicate Refers(f: Field, table: Table) {
    f.Template? && f.id.Some? && f.id.value in table
  }

  function Target(f: Field, table: Table): seq<Field>
    requires Refers(f, table)
  {
    table[f.id.value]
  }

  /** What is wrong with a template field, if anything. */
  function Fault(f: Field, table: Table): Option<Error> {
    match f
    case Plain(_) => None
    case Template(None) => Some(NoId)
    case Template(Some(id)) =>
      if id !in table then Some(NoTemplate(id))
      else if table[id] == [] then Some(EmptyTemplate(id))
      else None
  }

  /** A list expands into fields, fails, or has no end. */
  datatype Expanded = Fields(all: seq<Field>) | Fails(error: Error) | Endless

  /** Two expansions one after the other; the first one that does not give fields decides. */
  function Then(a: Expanded, b: Expanded): Expanded {
    match a
    case Fields(x) => (match b case Fields(y) => Fields(x + y) case _ => b)
    case _ => a
  }

  /** Expansion of one field, with templates nested at most `d` deep. */
  function ExpandField(f: Field, table: Table, d: nat): Expanded
    decreases d, 0
  {
    if Fault(f, table).Some? then Fails(Fault(f, table).value)
    else if f.Plain? then Fields([f])
    else if d == 0 then Endless
    else Expand(Target(f, table), table, d - 1)
  }

  /** Expansion of a list, from left to right. */
  function Expand(fields: seq<Field>, table: Table, d: nat): Expanded
    decreases d, 1, |fields|
  {
    if fields == [] then Fields([])
    else Then(ExpandField(fields[0], table, d), Expand(fields[1..], table, d))
  }

  /** The full expansion.  A nesting deeper than the table is large has no end: see EndlessForever. */
  function Inflated(fields: seq<Field>, table: Table): Expanded {
    Expand(fields, table, |table| + 1)
  }

  /** Number of turns the loop takes over a field, and over a list up to its first fault. */
  function FieldTurns(f: Field, table: Table, d: nat): nat
    decreases d, 0
  {
    if Fault(f, table).Some? then 0
    else if f.Plain? || d == 0 then 1
    else 1 + Turns(Target(f, table), table, d - 1)
  }

  function Turns(fields: seq<Field>, table: Table, d: nat): nat
    decreases d, 1, |fields|
  {
    if fields == [] then 0
    else FieldTurns(fields[0], table, d)
         + if ExpandField(fields[0], table, d).Fields? then Turns(fields[1..], table, d) else 0
  }

  lemma ExpandStep(fields: seq<Field>, table: Table, d: nat)
    requires fields != []
    ensures Expand(fields, table, d) == Then(ExpandField(fields[0], table, d), Expand(fields[1..], table, d))
    ensures Turns(fields, table, d) ==
            FieldTurns(fields[0], table, d)
            + if ExpandField(fields[0], table, d).Fields? then Turns(fields[1..], table, d) else 0
  {
  }

  lemma {:induction false} ExpandConcat(a: seq<Field>, b: seq<Field>, table: Table, d: nat)
    ensures Expand(a + b, table, d) == Then(Expand(a, table, d), Expand(b, table, d))
    ensures Turns(a + b, table, d) ==
            Turns(a, table, d) + if Expand(a, table, d).Fields? then Turns(b, table, d) else 0
    decreases |a|
  {
    hide ExpandField, FieldTurns;
    if a == [] {
      assert a + b == b;
      ThenUnit(Expand(b, table, d));
    } else {
      assert (a + b)[1..] == a[1..] + b;
      ExpandConcat(a[1..], b, table, d);
      ThenAssociates(ExpandField(a[0], table, d), Expand(a[1..], table, d), Expand(b, table, d));
    }
  }

  lemma ThenAssociates(a: Expanded, b: Expanded, c: Expanded)
    ensures Then(Then(a, b), c) == Then(a, Then(b, c))
  {
    if a.Fields? && b.Fields? && c.Fields? {
      assert a.all + b.all + c.all == a.all + (b.all + c.all);
    }
  }

  lemma ThenUnit(a: Expanded)
    ensures Then(Fields([]), a) == a
    ensures Then(a, Fields([])) == a
  {
    if a.Fields? {
      assert [] + a.all == a.all && a.all + [] == a.all;
    }
  }

  /** An expansion that has an end is the same at every greater depth. */
  lemma {:induction false} Deeper(fields: seq<Field>, table: Table, d: nat)
    requires Expand(fields, table, d) != Endless
    ensures Expand(fields, table, d + 1) == Expand(fields, table, d)
    ensures Turns(fields, table, d + 1) == Turns(fields, table, d)
    decreases d, |fields|
  {
    if fields != [] {
      var f := fields[0];
      if Fault(f, table).None? && f.Template? {
        Deeper(Target(f, table), table, d - 1);
      }
      if ExpandField(f, table, d).Fields? {
        Deeper(fields[1..], table, d);
      }
    }
  }

  /** One turn of the loop: a named template in the place of its field. */
  lemma InflateStep(f: Field, rest: seq<Field>, table: Table, d: nat)
    requires f.Template? && Fault(f, table).None? && Expand([f] + rest, table, d) != Endless
    ensures Expand(Target(f, table) + rest, table, d) == Expand([f] + rest, table, d)
    ensures Turns(Target(f, table) + rest, table, d) + 1 == Turns([f] + rest, table, d)
  {
    hide Expand, Turns;
    var all, body := [f] + rest, Target(f, table);
    assert all[1..] == rest;
    ExpandStep(all, table, d);
    Deeper(body, table, d - 1);
    ExpandConcat(body, rest, table, d);
  }

  // ----- the loop as a machine

  /** The list and the index between two turns of the loop. */
  datatype Config = Config(fields: seq<Field>, i: nat)

  /** The loop goes on: the index is in range and its field has no fault. */
  predicate Running(c: Config, table: Table) {
    c.i < |c.fields| && Fault(c.fields[c.i], table).None?
  }

  function Turn(c: Config, table: Table): Config
    requires Running(c, table)
  {
    var f := c.fields[c.i];
    if f.Plain? then c.(i := c.i + 1)
    else c.(fields := c.fields[..c.i] + Target(f, table) + c.fields[c.i + 1..])
  }

  /** The loop takes more than `n` turns. */
  predicate RunsFor(c: Config, table: Table, n: nat)
    decreases n
  {
    Running(c, table) && (n > 0 ==> RunsFor(Turn(c, table), table, n - 1))
  }

  /** The loop comes to an end, be it with a fault. */
  ghost predicate Stops(fields: seq<Field>, table: Table) {
    exists n: nat :: !RunsFor(Config(fields, 0), table, n)
  }

  /** A list that has an end takes exactly the counted number of turns. */
  lemma {:induction false} TurnCount(passed: seq<Field>, tail: seq<Field>, table: Table, d: nat, n: nat)
    requires Expand(tail, table, d) != Endless
    ensures RunsFor(Config(passed + tail, |passed|), table, n) <==> n < Turns(tail, table, d)
    decreases n
  {
    hide Expand, Turns, ExpandField, FieldTurns, Fault, Target, Then;
    var c := Config(passed + tail, |passed|);
    if tail == [] {
      NoTurns(table, d);
    } else {
      var f, rest := tail[0], tail[1..];
      assert c.fields[c.i] == f && tail == [f] + rest;
      FirstTurn(tail, table, d);
      if Fault(f, table).None? && n > 0 {
        if f.Plain? {
          assert passed + tail == (passed + [f]) + rest;
          TurnCount(passed + [f], rest, table, d, n - 1);
        } else {
          InflateStep(f, rest, table, d);
          var body := Target(f, table);
          assert Turn(c, table).fields == passed + (body + rest);
          TurnCount(passed, body + rest, table, d, n - 1);
        }
      }
    }
  }

  /** How the first field counts. */
  lemma FirstTurn(tail: seq<Field>, table: Table, d: nat)
    requires tail != [] && Expand(tail, table, d) != Endless
    ensures Fault(tail[0], table).Some? ==> Turns(tail, table, d) == 0
    ensures tail[0].Plain? ==>
              && Fault(tail[0], table).None? && Expand(tail[1..], table, d) != Endless
              && Turns(tail, table, d) == 1 + Turns(tail[1..], table, d)
    ensures tail[0].Template? && Fault(tail[0], table).None? ==>
              Refers(tail[0], table) && Turns(tail, table, d) > 0
  {
    ExpandStep(tail, table, d);
  }

  lemma NoTurns(table: Table, d: nat)
    ensures Turns([], table, d) == 0 && Expand([], table, d) == Fields([])
  {
  }

  // ----- lists without an end

  /** Templates whose nesting exceeds the depth. */
  function EndlessIds(table: Table, d: nat): set<string> {
    set id | id in table && Expand(table[id], table, d) == Endless
  }

  lemma EndlessShrinks(table: Table, d: nat)
    ensures EndlessIds(table, d + 1) <= EndlessIds(table, d)
  {
    hide Expand;
    forall id | id in EndlessIds(table, d + 1) ensures id in EndlessIds(table, d) {
      if Expand(table[id], table, d) != Endless {
        Deeper(table[id], table, d);
      }
    }
  }

  /** If one more level changes no template, it changes no list a level higher up. */
  lemma {:induction false} ListStays(fields: seq<Field>, table: Table, d: nat)
    requires EndlessIds(table, d) == EndlessIds(table, d + 1) && Expand(fields, table, d + 1) == Endless
    ensures Expand(fields, table, d + 2) == Endless
    decreases |fields|
  {
    hide EndlessIds;
    var f := fields[0];
    if f.Template? && Fault(f, table).None? {
      EndlessMember(table, d, f.id.value);
      EndlessMember(table, d + 1, f.id.value);
      if Expand(Target(f, table), table, d) != Endless {
        Deeper(Target(f, table), table, d);
        ListStays(fields[1..], table, d);
      }
    } else {
      ListStays(fields[1..], table, d);
    }
  }

  lemma EndlessMember(table: Table, d: nat, id: string)
    requires id in table
    ensures id in EndlessIds(table, d) <==> Expand(table[id], table, d) == Endless
  {
  }

  lemma StaysSettled(table: Table, d: nat)
    requires EndlessIds(table, d) == EndlessIds(table, d + 1)
    ensures EndlessIds(table, d + 1) == EndlessIds(table, d + 2)
  {
    hide Expand;
    EndlessShrinks(table, d + 1);
    var e, e' := EndlessIds(table, d + 1), EndlessIds(table, d + 2);
    forall id | id in e ensures id in e' {
      ListStays(table[id], table, d);
    }
  }

  /** Every level loses a template or is the last to lose one. */
  lemma {:induction false} Settles(table: Table, d: nat)
    ensures |EndlessIds(table, d)| + d <= |table| || EndlessIds(table, d) == EndlessIds(table, d + 1)
    decreases d
  {
    hide EndlessIds;
    if d == 0 {
      EndlessAreInTable(table);
    } else {
      Settles(table, d - 1);
      var e, e' := EndlessIds(table, d - 1), EndlessIds(table, d);
      if e == e' {
        StaysSettled(table, d - 1);
      } else {
        EndlessShrinks(table, d - 1);
        SmallerSet(e', e);
      }
    }
  }

  lemma EndlessAreInTable(table: Table)
    ensures |EndlessIds(table, 0)| <= |table|
  {
    SetAtMost(EndlessIds(table, 0), table.Keys);
  }

  lemma SetAtMost<T>(a: set<T>, b: set<T>)
    requires a <= b
    ensures |a| <= |b|
  {
    assert b == a + (b - a);
  }

  lemma SmallerSet<T>(a: set<T>, b: set<T>)
    requires a <= b && a != b
    ensures |a| < |b|
  {
    assert b == a + (b - a);
    var x :| x in b && x !in a;
    assert x in b - a;
  }

  /** From the size of the table on, one more level changes nothing. */
  lemma {:induction false} SettledBehindTable(table: Table, d: nat)
    requires d >= |table|
    ensures EndlessIds(table, d) == EndlessIds(table, d + 1)
    decreases d
  {
    hide EndlessIds;
    if d == |table| {
      Settles(table, d);
      EndlessShrinks(table, d);
    } else {
      SettledBehindTable(table, d - 1);
      StaysSettled(table, d - 1);
    }
  }

  lemma {:induction false} Shallower(fields: seq<Field>, table: Table, d: nat, d': nat)
    requires d' <= d && Expand(fields, table, d) == Endless
    ensures Expand(fields, table, d') == Endless
    decreases d
  {
    hide Expand;
    if d' < d {
      if Expand(fields, table, d - 1) != Endless {
        Deeper(fields, table, d - 1);
      }
      Shallower(fields, table, d - 1, d');
    }
  }

  /** A list without an end within the size of the table has none at any depth. */
  lemma {:induction false} EndlessForever(fields: seq<Field>, table: Table, d: nat)
    requires Inflated(fields, table) == Endless
    ensures Expand(fields, table, d) == Endless
    decreases d
  {
    hide Expand, EndlessIds;
    if d <= |table| + 1 {
      Shallower(fields, table, |table| + 1, d);
    } else {
      EndlessForever(fields, table, d - 1);
      SettledBehindTable(table, d - 2);
      ListStays(fields, table, d - 2);
    }
  }

  /** One turn on a list without an end leaves one. */
  lemma EndlessStep(f: Field, rest: seq<Field>, table: Table)
    requires Inflated([f] + rest, table) == Endless
    ensures Fault(f, table).None?
    ensures Inflated(if f.Plain? then rest else Target(f, table) + rest, table) == Endless
  {
    hide Expand;
    var d := |table| + 1;
    var all := [f] + rest;
    assert all[1..] == rest;
    ExpandStep(all, table, d);
    if f.Template? {
      EndlessForever(all, table, d + 1);
      ExpandStep(all, table, d + 1);
      ExpandConcat(Target(f, table), rest, table, d);
      if Expand(rest, table, d + 1) == Endless {
        Shallower(rest, table, d + 1, d);
      }
    }
  }

  lemma {:induction false} EndlessRuns(passed: seq<Field>, tail: seq<Field>, table: Table, n: nat)
    requires Inflated(tail, table) == Endless
    ensures RunsFor(Config(passed + tail, |passed|), table, n)
    decreases n
  {
    hide Inflated;
    EndlessIsNotEmpty(tail, table);
    var c, f, rest := Config(passed + tail, |passed|), tail[0], tail[1..];
    assert c.fields[c.i] == f && tail == [f] + rest;
    EndlessStep(f, rest, table);
    if n > 0 {
      if f.Plain? {
        assert passed + tail == (passed + [f]) + rest;
        EndlessRuns(passed + [f], rest, table, n - 1);
      } else {
        assert Turn(c, table).fields == passed + (Target(f, table) + rest);
        EndlessRuns(passed, Target(f, table) + rest, table, n - 1);
      }
    }
  }

  lemma EndlessIsNotEmpty(fields: seq<Field>, table: Table)
    requires Inflated(fields, table) == Endless
    ensures fields != []
  {
  }

  /** The loop comes to an end exactly when the expansion does. */
  lemma StopsExactly(fields: seq<Field>, table: Table)
    ensures Stops(fields, table) <==> Inflated(fields, table) != Endless
  {
    hide Expand, Turns, RunsFor;
    assert [] + fields == fields;
    if Inflated(fields, table) == Endless {
      forall n: nat ensures RunsFor(Config(fields, 0), table, n) {
        EndlessRuns([], fields, table, n);
      }
    } else {
      var d := |table| + 1;
      TurnCount([], fields, table, d, Turns(fields, table, d));
    }
  }

  // ----- the in-place loop

  /** A Go slice that starts at the front of its array; the array's length is its capacity. */
  datatype Slice = Slice(data: array<Field>, len: nat)

  ghost predicate Valid(s: Slice) {
    s.len <= s.data.Length
  }

  function View(s: Slice): seq<Field>
    requires Valid(s)
    reads s.data
  {
    s.data[..s.len]
  }

  ghost function TableView(table: map<string, Slice>): Table
    requires forall id :: id in table ==> Valid(table[id])
    reads set id | id in table :: table[id].data
  {
    map id | id in table :: View(table[id])
  }

  /** append(s[:i], more...): in place when the capacity allows, on a new array otherwise. */
  method Append(s: Slice, i: nat, more: seq<Field>) returns (r: Slice)
    requires Valid(s) && i <= s.len
    modifies s.data
    ensures Valid(r) && View(r) == old(View(s))[..i] + more
    ensures r.data == s.data || fresh(r.data)
    ensures r.data != s.data ==> s.data[..] == old(s.data[..])
  {
    var n := i + |more|;
    if n <= s.data.Length {
      forall j | i <= j < n {
        s.data[j] := more[j - i];
      }
      r := Slice(s.data, n);
      assert View(r)[..i] == old(View(s))[..i] && View(r)[i..] == more;
    } else {
      var spare :| spare >= 0;  // how much more is allocated is up to the runtime
      var data := new Field[n + spare];
      forall j | 0 <= j < n {
        data[j] := if j < i then s.data[j] else more[j - i];
      }
      r := Slice(data, n);
      assert View(r)[..i] == old(View(s))[..i] && View(r)[i..] == more;
    }
    assert View(r) == View(r)[..i] + View(r)[i..];
  }

  /**
   Replaces template fields until none is left.  The lists of the table are not touched,
   although the work is done in place; a list without template fields is left alone.
   */
  method InflateTemplates(fcts: Slice, table: map<string, Slice>) returns (r: Result<Option<Slice>, Error>)
    requires Valid(fcts) && forall id :: id in table ==> Valid(table[id]) && table[id].data != fcts.data
    requires Stops(View(fcts), TableView(table))
    modifies fcts.data
    ensures forall id :: id in table ==> table[id].data[..] == old(table[id].data[..])
    ensures match old(Inflated(View(fcts), TableView(table)))
            case Endless => false
            case Fails(e) => r == Err(e)
            case Fields(all) =>
              if forall f :: f in old(View(fcts)) ==> f.Plain?
              then r == Ok(None) && fcts.data[..] == old(fcts.data[..])
              else r.Ok? && r.value.Some? && Valid(r.value.value) && View(r.value.value) == all
  {
    hide Expand, Turns, Then, Stops, Inflated, ExpandField, FieldTurns;
    ghost var tbl := TableView(table);
    ghost var goal := Inflated(View(fcts), tbl);
    StopsExactly(View(fcts), tbl);
    ghost var d := DepthOf(View(fcts), tbl);
    var cur, i, hasTpl := fcts, 0, false;
    assert View(cur)[0..] == View(cur) && View(cur)[..0] == [];
    ThenUnit(goal);
    while i < cur.len
      invariant Valid(cur) && i <= cur.len && (cur.data == fcts.data || fresh(cur.data))
      invariant forall id :: id in table ==> table[id].data[..] == old(table[id].data[..])
      invariant TableView(table) == tbl
      invariant forall f :: f in View(cur)[..i] ==> f.Plain?
      invariant Expand(View(cur)[i..], tbl, d) != Endless
      invariant goal == Then(Fields(View(cur)[..i]), Expand(View(cur)[i..], tbl, d))
      invariant !hasTpl ==> cur == fcts && fcts.data[..] == old(fcts.data[..])
      invariant hasTpl ==> exists f :: f in old(View(fcts)) && f.Template?
      decreases Turns(View(cur)[i..], tbl, d)
    {
      ghost var s := View(cur);
      ghost var tail := s[i..];
      assert s[i] == tail[0] && tail == [s[i]] + s[i + 1..] && tail[1..] == s[i + 1..];
      FaultStops(s[..i], tail, tbl, d);
      if cur.data[i].Template? {
        assert !hasTpl ==> s[i] in old(View(fcts));
        hasTpl := true;
        var id := cur.data[i].id;
        if id == None {
          return Err(NoId);
        }
        if id.value !in table {
          return Err(NoTemplate(id.value));
        }
        var refTpl := View(table[id.value]);
        assert refTpl == tbl[id.value];
        if refTpl == [] {
          return Err(EmptyTemplate(id.value));
        }
        InflateStep(s[i], s[i + 1..], tbl, d);
        var wrkSlice := refTpl + cur.data[i + 1..cur.len];
        assert cur.data[i + 1..cur.len] == s[i + 1..];
        cur := Append(cur, i, wrkSlice);
        assert View(cur)[..i] == s[..i] && View(cur)[i..] == wrkSlice;
        continue;
      }
      i := i + 1;
      PlainStep(s, i, tbl, d);
    }
    assert View(cur)[i..] == [] && View(cur)[..i] == View(cur);
    NoTurns(tbl, d);
    ThenUnit(Fields(View(cur)));
    if !hasTpl {
      return Ok(None);
    }
    return Ok(Some(cur));
  }

  lemma DepthOf(fields: seq<Field>, table: Table) returns (d: nat)
    ensures Expand(fields, table, d) == Inflated(fields, table)
  {
    d := |table| + 1;
  }

  /** A faulty field decides the outcome, whatever was passed before it. */
  lemma FaultStops(passed: seq<Field>, tail: seq<Field>, table: Table, d: nat)
    requires tail != []
    ensures Fault(tail[0], table).Some? ==>
              Then(Fields(passed), Expand(tail, table, d)) == Fails(Fault(tail[0], table).value)
  {
    ExpandStep(tail, table, d);
  }

  /** The loop passes over a plain field. */
  lemma PlainStep(s: seq<Field>, i: nat, table: Table, d: nat)
    requires 0 < i <= |s| && s[i - 1].Plain? && Expand(s[i - 1..], table, d) != Endless
    ensures Then(Fields(s[..i - 1]), Expand(s[i - 1..], table, d)) ==
            Then(Fields(s[..i]), Expand(s[i..], table, d))
    ensures Expand(s[i..], table, d) != Endless
    ensures Turns(s[i..], table, d) < Turns(s[i - 1..], table, d)
  {
    hide Expand, Turns;
    var tail := s[i - 1..];
    assert tail[1..] == s[i..] && tail[0] == s[i - 1];
    ExpandStep(tail, table, d);
    assert s[..i] == s[..i - 1] + [s[i - 1]];
    ThenAssociates(Fields(s[..i - 1]), Fields([s[i - 1]]), Expand(s[i..], table, d));
  }

  // ----- what a full expansion is

  /** No template field is left. */
  lemma {:induction false} ExpandedIsPlain(fields: seq<Field>, table: Table, d: nat)
    requires Expand(fields, table, d).Fields?
    ensures forall f :: f in Expand(fields, table, d).all ==> f.Plain?
    decreases d, |fields|
  {
    if fields != [] {
      ExpandedIsPlain(fields[1..], table, d);
      var f := fields[0];
      if f.Template? {
        ExpandedIsPlain(Target(f, table), table, d - 1);
      }
    }
  }

  /** Inflating what was inflated changes nothing. */
  lemma {:induction false} PlainIsExpanded(fields: seq<Field>, table: Table, d: nat)
    requires forall f :: f in fields ==> f.Plain?
    ensures Expand(fields, table, d) == Fields(fields)
    decreases |fields|
  {
    if fields != [] {
      PlainIsExpanded(fields[1..], table, d);
      assert fields == [fields[0]] + fields[1..];
    }
  }

  /** `f` is met from the list by following the template fields of `trail`, one inside the other. */
  ghost predicate Reached(fields: seq<Field>, table: Table, trail: seq<Field>, f: Field)
    decreases |trail|
  {
    if trail == [] then f in fields
    else trail[0] in fields && Refers(trail[0], table) && Reached(Target(trail[0], table), table, trail[1..], f)
  }

  ghost predicate AllReachedFaultless(fields: seq<Field>, table: Table) {
    forall trail, f :: Reached(fields, table, trail, f) ==> Fault(f, table).None?
  }

  /** The field names a template inside which it is met again. */
  ghost predicate ReachesItself(f: Field, table: Table) {
    Refers(f, table) && exists trail :: Reached(Target(f, table), table, trail, f)
  }

  /** No template that is reached contains itself, directly or through others. */
  ghost predicate NoCycleReached(fields: seq<Field>, table: Table) {
    forall trail, f :: Reached(fields, table, trail, f) ==> !ReachesItself(f, table)
  }

  lemma ReachedStep(fields: seq<Field>, table: Table, g: Field, trail: seq<Field>, f: Field)
    requires g in fields && Refers(g, table) && Reached(Target(g, table), table, trail, f)
    ensures Reached(fields, table, [g] + trail, f)
  {
    assert ([g] + trail)[1..] == trail;
  }

  lemma {:induction false} ReachedThrough(fields: seq<Field>, table: Table, trail: seq<Field>, g: Field,
                                          trail': seq<Field>, f: Field)
    requires Reached(fields, table, trail, g) && Refers(g, table) && Reached(Target(g, table), table, trail', f)
    ensures Reached(fields, table, trail + [g] + trail', f)
    decreases |trail|
  {
    if trail == [] {
      assert trail + [g] + trail' == [g] + trail';
      ReachedStep(fields, table, g, trail', f);
    } else {
      ReachedThrough(Target(trail[0], table), table, trail[1..], g, trail', f);
      assert trail + [g] + trail' == [trail[0]] + (trail[1..] + [g] + trail');
      ReachedStep(fields, table, trail[0], trail[1..] + [g] + trail', f);
    }
  }

  lemma {:induction false} MemberSucceeds(fields: seq<Field>, table: Table, d: nat, f: Field)
    requires Expand(fields, table, d).Fields? && f in fields
    ensures ExpandField(f, table, d).Fields?
    decreases |fields|
  {
    if f != fields[0] {
      MemberSucceeds(fields[1..], table, d, f);
    }
  }

  /** Everything reached from a list that expands has no fault, and is reached within the depth. */
  lemma {:induction false} ReachedSucceeds(fields: seq<Field>, table: Table, d: nat, trail: seq<Field>, f: Field)
    requires Expand(fields, table, d).Fields? && Reached(fields, table, trail, f)
    ensures |trail| <= d && ExpandField(f, table, d - |trail|).Fields?
    decreases |trail|
  {
    var g := if trail == [] then f else trail[0];
    MemberSucceeds(fields, table, d, g);
    if trail != [] {
      ReachedSucceeds(Target(g, table), table, d - 1, trail[1..], f);
    }
  }

  /** A template that contains itself expands at no depth. */
  lemma {:induction false} CycleNeverExpands(f: Field, table: Table, d: nat)
    requires ReachesItself(f, table)
    ensures !ExpandField(f, table, d).Fields?
    decreases d
  {
    if ExpandField(f, table, d).Fields? {
      var trail :| Reached(Target(f, table), table, trail, f);
      ReachedSucceeds(Target(f, table), table, d - 1, trail, f);
      CycleNeverExpands(f, table, d - 1 - |trail|);
    }
  }

  /** A faulty outcome is due to a fault that is reached. */
  lemma {:induction false} FailureIsReached(fields: seq<Field>, table: Table, d: nat)
    returns (trail: seq<Field>, f: Field)
    requires Expand(fields, table, d).Fails?
    ensures Reached(fields, table, trail, f) && Fault(f, table) == Some(Expand(fields, table, d).error)
    decreases d, |fields|
  {
    f, trail := fields[0], [];
    if ExpandField(f, table, d).Fields? {
      trail, f := FailureIsReached(fields[1..], table, d);
      assert Reached(fields, table, trail, f);
    } else if Fault(f, table).None? {
      var g := f;
      trail, f := FailureIsReached(Target(g, table), table, d - 1);
      ReachedStep(fields, table, g, trail, f);
      trail := [g] + trail;
    }
  }

  /** A list without an end names a template without an end. */
  lemma {:induction false} EndlessMemberOf(fields: seq<Field>, table: Table, d: nat) returns (f: Field)
    requires Expand(fields, table, d + 1) == Endless
    ensures f in fields && Refers(f, table) && Expand(Target(f, table), table, d) == Endless
    decreases |fields|
  {
    f := fields[0];
    if ExpandField(f, table, d + 1).Fields? {
      f := EndlessMemberOf(fields[1..], table, d);
    }
  }

  lemma EndlessTarget(fields: seq<Field>, table: Table) returns (f: Field)
    requires Inflated(fields, table) == Endless
    ensures f in fields && Refers(f, table) && Inflated(Target(f, table), table) == Endless
  {
    hide Expand;
    EndlessForever(fields, table, |table| + 2);
    f := EndlessMemberOf(fields, table, |table| + 1);
  }

  /** All ids of the set name templates in which `f` is met. */
  ghost predicate LeadTo(ids: set<string>, table: Table, f: Field) {
    forall id :: id in ids ==> id in table && exists trail :: Reached(table[id], table, trail, f)
  }

  /** Following templates without an end, one is met that was met before. */
  lemma {:induction false} FindCycle(fields: seq<Field>, table: Table, trail: seq<Field>, f: Field, met: set<string>)
    returns (trail': seq<Field>, g: Field)
    requires Reached(fields, table, trail, f) && Refers(f, table) && Inflated(Target(f, table), table) == Endless
    requires met <= table.Keys && LeadTo(met, table, f)
    ensures Reached(fields, table, trail', g) && ReachesItself(g, table)
    decreases |table.Keys - met|
  {
    hide Inflated, Reached;
    var id := f.id.value;
    if id in met {
      return trail, f;
    }
    g := EndlessTarget(Target(f, table), table);
    assert Reached(Target(f, table), table, [], g) by { Inside(Target(f, table), table, g); }
    ReachedThrough(fields, table, trail, f, [], g);
    LeadOn(met, table, f, g);
    var met' := met + {id};
    assert table.Keys - met' == table.Keys - met - {id};
    trail', g := FindCycle(fields, table, trail + [f] + [], g, met');
  }

  lemma Inside(fields: seq<Field>, table: Table, f: Field)
    requires f in fields
    ensures Reached(fields, table, [], f)
  {
  }

  lemma LeadOn(met: set<string>, table: Table, f: Field, g: Field)
    requires Refers(f, table) && LeadTo(met, table, f) && Reached(Target(f, table), table, [], g)
    ensures LeadTo(met + {f.id.value}, table, g)
  {
    hide Reached;
    forall id | id in met + {f.id.value} ensures id in table && exists trail :: Reached(table[id], table, trail, g) {
      if id in met {
        var trail :| Reached(table[id], table, trail, f);
        ReachedThrough(table[id], table, trail, f, [], g);
      }
    }
  }

  /** A list without an end reaches a template that contains itself. */
  lemma EndlessMeansCycle(fields: seq<Field>, table: Table)
    requires Inflated(fields, table) == Endless
    ensures !NoCycleReached(fields, table)
  {
    hide Inflated, Reached;
    var f := EndlessTarget(fields, table);
    Inside(fields, table, f);
    var trail, g := FindCycle(fields, table, [], f, {});
  }

  /**
   Inflation succeeds exactly when every template field that is reached has a computable
   id that names a non-empty template, and none of these templates contains itself.
   */
  lemma SucceedsExactly(fields: seq<Field>, table: Table)
    ensures Inflated(fields, table).Fields? <==> AllReachedFaultless(fields, table) && NoCycleReached(fields, table)
  {
    hide Expand, Reached;
    var d := |table| + 1;
    if Expand(fields, table, d).Fields? {
      forall trail, f | Reached(fields, table, trail, f)
        ensures Fault(f, table).None? && !ReachesItself(f, table)
      {
        ReachedSucceeds(fields, table, d, trail, f);
        if ReachesItself(f, table) {
          CycleNeverExpands(f, table, d - |trail|);
        }
      }
    } else if Expand(fields, table, d).Fails? {
      var trail, f := FailureIsReached(fields, table, d);
    } else {
      EndlessMeansCycle(fields, table);
    }
  }

  /**
   The loop comes to an end whenever no reached template contains itself; where nothing
   that is reached is faulty, it comes to an end only then.
   */
  lemma StopsWithoutCycle(fields: seq<Field>, table: Table)
    ensures NoCycleReached(fields, table) ==> Stops(fields, table)
    ensures AllReachedFaultless(fields, table) ==> (Stops(fields, table) <==> NoCycleReached(fields, table))
  {
    hide Stops, NoCycleReached, AllReachedFaultless;
    StopsExactly(fields, table);
    SucceedsExactly(fields, table);
    if Inflated(fields, table) == Endless {
      EndlessMeansCycle(fields, table);
    } else if Inflated(fields, table).Fails? {
      FailsOnFault(fields, table);
    }
  }

  lemma FailsOnFault(fields: seq<Field>, table: Table)
    requires Inflated(fields, table).Fails?
    ensures !AllReachedFaultless(fields, table)
  {
    hide Expand, Reached;
    var trail, f := FailureIsReached(fields, table, |table| + 1);
  }

  // ----- the full expansion in terms of the table

  /** The template behind a field at the front of a list, expanded to its full depth. */
  lemma TargetSettles(id: string, table: Table)
    requires id in table
    ensures Expand(table[id], table, |table|) == Inflated(table[id], table)
  {
    hide Expand;
    if Expand(table[id], table, |table|) == Endless {
      EndlessMember(table, |table|, id);
      SettledBehindTable(table, |table|);
      EndlessMember(table, |table| + 1, id);
    } else {
      Deeper(table[id], table, |table|);
    }
  }

  /** A template field stands for the fields of its template, in front of the rest. */
  lemma InflatedTemplate(id: string, rest: seq<Field>, table: Table)
    requires id in table && table[id] != []
    ensures Inflated([Template(Some(id))] + rest, table) ==
            match Inflated(table[id], table)
            case Endless => Endless
            case Fails(e) => Fails(e)
            case Fields(x) =>
              (match Inflated(rest, table)
               case Endless => Endless
               case Fails(e) => Fails(e)
               case Fields(y) => Fields(x + y))
  {
    hide Expand;
    var all := [Template(Some(id))] + rest;
    assert all[1..] == rest;
    ExpandStep(all, table, |table| + 1);
    TargetSettles(id, table);
  }

  /** A template of plain fields is put in as it is. */
  lemma InflatedPlainTemplate(id: string, table: Table)
    requires id in table && table[id] != [] && forall f :: f in table[id] ==> f.Plain?
    ensures Inflated([Template(Some(id))], table) == Fields(table[id])
  {
    hide Expand;
    assert [Template(Some(id))] + [] == [Template(Some(id))];
    InflatedTemplate(id, [], table);
    PlainIsExpanded(table[id], table, |table| + 1);
    NoTurns(table, |table| + 1);
    assert table[id] + [] == table[id];
  }

  /** A plain field stays, in front of the rest. */
  lemma InflatedPlain(name: string, rest: seq<Field>, table: Table)
    ensures Inflated([Plain(name)] + rest, table) ==
            match Inflated(rest, table)
            case Endless => Endless
            case Fails(e) => Fails(e)
            case Fields(y) => Fields([Plain(name)] + y)
  {
    hide Expand;
    var all := [Plain(name)] + rest;
    assert all[1..] == rest;
    ExpandStep(all, table, |table| + 1);
  }

  /** A template field that cannot be replaced ends the inflation, with the error that says why. */
  lemma InflatedFault(rest: seq<Field>, table: Table)
    ensures Inflated([Template(None)] + rest, table) == Fails(NoId)
    ensures forall id :: id !in table ==> Inflated([Template(Some(id))] + rest, table) == Fails(NoTemplate(id))
    ensures forall id :: id in table && table[id] == [] ==>
                           Inflated([Template(Some(id))] + rest, table) == Fails(EmptyTemplate(id))
    ensures Inflated([], table) == Fields([])
  {
    hide Expand;
    forall f: Field | f.Template? ensures Fault(f, table).Some? ==> Inflated([f] + rest, table) == Fails(Fault(f, table).value) {
      ExpandStep([f] + rest, table, |table| + 1);
    }
    NoTurns(table, |table| + 1);
  }
}
