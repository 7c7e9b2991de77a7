/**
 Filling DNS answers from a flat list of named values: a record is opened for the first
 value and again whenever a name comes up that the current record already has.
 */
module DnsAnswer {
  import opened Wrappers

  const RCODE := "Rcode"
  const ORDER := "Order"
  const PREFERENCE := "Preference"
  const FLAGS := "Flags"
  const SERVICE := "Service"
  const REGEXP := "Regexp"
  const REPLACEMENT := "Replacement"

  datatype Kind = TypeA | TypeNaptr | OtherType
  datatype Question = Question(name: string, kind: Kind)

  datatype Record =
    | A(name: string)
    | Naptr(name: string, order: nat, preference: nat, flags: string, service: string, regexp: string,
            replacement: string)

  /** A value as text and, where it can be converted, as a 64-bit number. */
  datatype Data = Data(number: Option<int>, text: string)

  datatype Item = Unreadable | NotAnItem | Item(path: seq<string>, data: Data)

  datatype Error =
    | NoField | NoItem | EmptyPath | UnsupportedType
    | NotANumber(name: string) | OnlyNaptr(name: string) | WrongRecord

  /** Truncation to sixteen bits. */
  function Uint16(n: int): (r: nat)
    ensures r < 0x1_0000
    ensures 0 <= n < 0x1_0000 ==> r == n
  {
    n % 0x1_0000
  }

  function NewRecord(q: Question): Option<Record> {
    match q.kind
    case TypeA => Some(A(q.name))
    case TypeNaptr => Some(Naptr(q.name, 0, 0, "", "", "", ""))
    case OtherType => None
  }

  predicate IsNaptrField(name: string) {
    name in [ORDER, PREFERENCE, FLAGS, SERVICE, REGEXP, REPLACEMENT]
  }

  /** Writes one value into a record; names that are no record fields leave it alone. */
  function Put(q: Question, rr: Record, name: string, data: Data): Result<Record, Error> {
    if !IsNaptrField(name) then Ok(rr)
    else if q.kind != TypeNaptr then Err(OnlyNaptr(name))
    else if (name == ORDER || name == PREFERENCE) && data.number.None? then Err(NotANumber(name))
    else if !rr.Naptr? then Err(WrongRecord)
    else if name == ORDER then Ok(rr.(order := Uint16(data.number.value)))
    else if name == PREFERENCE then Ok(rr.(preference := Uint16(data.number.value)))
    else if name == FLAGS then Ok(rr.(flags := data.text))
    else if name == SERVICE then Ok(rr.(service := data.text))
    else if name == REGEXP then Ok(rr.(regexp := data.text))
    else Ok(rr.(replacement := data.text))
  }

  datatype State = State(rcode: int, answer: seq<Record>, fields: set<string>)
  datatype Stepped = Stepped(st: State, error: Option<Error>)

  /** A new record is needed: there is none yet, or the current one has the name. */
  predicate Opens(st: State, name: string) {
    st.answer == [] || name in st.fields
  }

  function Open(q: Question, st: State, name: string): Stepped {
    if !Opens(st, name) then Stepped(st, None)
    else
      match NewRecord(q)
      case None => Stepped(st, Some(UnsupportedType))
      case Some(rr) => Stepped(st.(answer := st.answer + [rr], fields := {}), None)
  }

  /** Writes a value into the response code or the last record. */
  function Write(q: Question, st: State, name: string, data: Data): (s: Stepped)
    requires st.answer != []
  {
    var last := |st.answer| - 1;
    if name == RCODE then
      if data.number.None? then Stepped(st, Some(NotANumber(name)))
      else Stepped(st.(rcode := data.number.value, fields := st.fields + {name}), None)
    else
      match Put(q, st.answer[last], name, data)
      case Err(e) => Stepped(st, Some(e))
      case Ok(rr) => Stepped(st.(answer := st.answer[last := rr], fields := st.fields + {name}), None)
  }

  function Step(q: Question, st: State, item: Item): Stepped {
    match item
    case Unreadable => Stepped(st, Some(NoField))
    case NotAnItem => Stepped(st, Some(NoItem))
    case Item(path, data) =>
      if path == [] then Stepped(st, Some(EmptyPath))
      else
        var next := Open(q, st, path[0]);
        if next.error.Some? then next else Write(q, next.st, path[0], data)
  }

  /** The values in order, until one fails; what was written before stays. */
  function Fold(q: Question, st: State, items: seq<Item>): Stepped
    decreases |items|
  {
    if items == [] then Stepped(st, None)
    else
      var s := Step(q, st, items[0]);
      if s.error.Some? then s else Fold(q, s.st, items[1..])
  }

  class Msg {
    const question: Question
    var rcode: int
    var answer: seq<Record>

    constructor (q: Question)
      ensures question == q && rcode == 0 && answer == []
    {
      question, rcode, answer := q, 0, [];
    }

    /** Appends an empty record of the question's type. */
    method AppendAnswer() returns (err: Option<Error>)
      modifies this`answer
      ensures match NewRecord(question)
              case None => err == Some(UnsupportedType) && answer == old(answer)
              case Some(rr) => err == None && answer == old(answer) + [rr]
    {
      match question.kind
      case TypeA => answer := answer + [A(question.name)]; return None;
      case TypeNaptr => answer := answer + [Naptr(question.name, 0, 0, "", "", "", "")]; return None;
      case OtherType => return Some(UnsupportedType);
    }

    method UpdateFromItems(items: seq<Item>) returns (err: Option<Error>)
      modifies this`rcode, this`answer
      ensures var s := Fold(question, State(old(rcode), old(answer), {}), items);
              err == s.error && rcode == s.st.rcode && answer == s.st.answer
    {
      hide Put;
      ghost var goal := Fold(question, State(rcode, answer, {}), items);
      var msgFields: set<string> := {};
      for i := 0 to |items|
        invariant goal == Fold(question, State(rcode, answer, msgFields), items[i..])
      {
        assert items[i..][1..] == items[i + 1..];
        match items[i] {
          case Unreadable => return Some(NoField);
          case NotAnItem => return Some(NoItem);
          case Item(path, data) =>
            if path == [] {
              return Some(EmptyPath);
            }
            var name := path[0];
            var apnd := answer == [] || name in msgFields;
            if apnd {
              err := AppendAnswer();
              if err.Some? {
                return;
              }
              msgFields := {};
            }
            if name == RCODE {
              if data.number.None? {
                return Some(NotANumber(name));
              }
              rcode := data.number.value;
            } else {
              var rr := Put(question, answer[|answer| - 1], name, data);
              if rr.Err? {
                return Some(rr.error);
              }
              answer := answer[|answer| - 1 := rr.value];
            }
            msgFields := msgFields + {name};
        }
      }
      return None;
    }
  }

  // ----- runs without repeated names

  predicate IsNamed(item: Item) {
    item.Item? && item.path != []
  }

  ghost predicate AllNamed(items: seq<Item>) {
    forall i :: 0 <= i < |items| ==> IsNamed(items[i])
  }

  function NameOf(item: Item): string
    requires IsNamed(item)
  {
    item.path[0]
  }

  ghost function Names(items: seq<Item>): set<string>
    requires AllNamed(items)
  {
    set i | 0 <= i < |items| :: NameOf(items[i])
  }

  ghost predicate Distinct(items: seq<Item>)
    requires AllNamed(items)
  {
    forall i, j :: 0 <= i < j < |items| ==> NameOf(items[i]) != NameOf(items[j])
  }

  /** Where the run that holds the first `i` items ends: before the first repeated name. */
  ghost function RunEnd(items: seq<Item>, i: nat): (n: nat)
    requires AllNamed(items) && i <= |items| && Distinct(items[..i])
    ensures i <= n <= |items| && Distinct(items[..n])
    ensures n < |items| ==> NameOf(items[n]) in Names(items[..n])
    decreases |items| - i
  {
    if i == |items| then i
    else if NameOf(items[i]) in Names(items[..i]) then i
    else
      assert items[..i + 1] == items[..i] + [items[i]];
      RunEnd(items, i + 1)
  }

  /** Length of the first greedy run. */
  ghost function FirstRun(items: seq<Item>): (n: nat)
    requires AllNamed(items) && items != []
    ensures 1 <= n <= |items| && Distinct(items[..n])
    ensures n < |items| ==> NameOf(items[n]) in Names(items[..n])
  {
    RunEnd(items, 1)
  }

  /** The greedy split into runs. */
  ghost function Runs(items: seq<Item>): (runs: seq<seq<Item>>)
    requires AllNamed(items)
    ensures forall run :: run in runs ==> run != [] && AllNamed(run)
    decreases |items|
  {
    if items == [] then []
    else
      var n := FirstRun(items);
      [items[..n]] + Runs(items[n..])
  }

  ghost function Flatten(runs: seq<seq<Item>>): seq<Item> {
    if runs == [] then [] else runs[0] + Flatten(runs[1..])
  }

  /** A list of runs that gives back the items, none with a repeated name. */
  ghost predicate IsPartition(runs: seq<seq<Item>>, items: seq<Item>) {
    && Flatten(runs) == items
    && forall run :: run in runs ==> AllNamed(run) && Distinct(run)
  }

  lemma {:induction false} RunsArePartition(items: seq<Item>)
    requires AllNamed(items)
    ensures IsPartition(Runs(items), items)
    decreases |items|
  {
    if items != [] {
      var n := FirstRun(items);
      RunsArePartition(items[n..]);
      assert items == items[..n] + items[n..];
    }
  }

  /** A run without repeated names is never longer than the greedy one. */
  lemma {:induction false} RunEndIsLongest(items: seq<Item>, i: nat, m: nat)
    requires AllNamed(items) && i <= m <= |items| && Distinct(items[..m]) && Distinct(items[..i])
    ensures m <= RunEnd(items, i)
    decreases |items| - i
  {
    if i < m {
      assert items[..m][i] == items[i];
      assert forall j :: 0 <= j < i ==> items[..m][j] == items[..i][j];
      assert NameOf(items[i]) !in Names(items[..i]);
      assert items[..i + 1] == items[..i] + [items[i]];
      RunEndIsLongest(items, i + 1, m);
    }
  }

  /** A greedy run that starts inside the run `p` of a partition ends at its end or later. */
  lemma StartInside(s: seq<Item>, p: seq<Item>, rest: seq<Item>, k: nat)
    requires AllNamed(s) && AllNamed(p) && Distinct(p) && k < |p| && s == p[k..] + rest
    ensures var n := FirstRun(s); |p| - k <= n && s[n..] == rest[n - (|p| - k)..]
  {
    var m := |p| - k;
    assert s[..m] == p[k..];
    assert s[..1] == [s[0]];
    RunEndIsLongest(s, 1, m);
  }

  /** The greedy split of any tail needs no more runs than a partition of the whole. */
  lemma {:induction false} TailNeedsNoMore(items: seq<Item>, k: nat, runs: seq<seq<Item>>)
    requires IsPartition(runs, items) && AllNamed(items) && k <= |items|
    ensures |Runs(items[k..])| <= |runs|
    decreases |runs|
  {
    hide FirstRun, Distinct;
    var s := items[k..];
    if runs == [] {
      assert s == [];
    } else {
      var p, rest := runs[0], Flatten(runs[1..]);
      assert p in runs;
      AllNamedTail(items, |p|);
      assert rest == items[|p|..];
      if k >= |p| {
        assert s == rest[k - |p|..];
        TailNeedsNoMore(rest, k - |p|, runs[1..]);
      } else {
        assert s == p[k..] + rest;
        AllNamedTail(items, k);
        StartInside(s, p, rest, k);
        TailNeedsNoMore(rest, FirstRun(s) - (|p| - k), runs[1..]);
      }
    }
  }

  lemma AllNamedTail(items: seq<Item>, n: nat)
    requires AllNamed(items) && n <= |items|
    ensures AllNamed(items[n..])
  {
  }

  /** No partition into runs without repeated names has fewer runs than the greedy one. */
  lemma GreedyIsMinimal(items: seq<Item>, runs: seq<seq<Item>>)
    requires AllNamed(items) && IsPartition(runs, items)
    ensures |Runs(items)| <= |runs|
  {
    TailNeedsNoMore(items, 0, runs);
    assert items[0..] == items;
  }

  // ----- one record for every run

  /** All values of a run written into one record. */
  function PutAll(q: Question, rr: Record, run: seq<Item>): Result<Record, Error>
    requires forall i :: 0 <= i < |run| ==> IsNamed(run[i])
    decreases |run|
  {
    if run == [] then Ok(rr)
    else
      match Put(q, rr, NameOf(run[0]), run[0].data)
      case Err(e) => Err(e)
      case Ok(rr') => PutAll(q, rr', run[1..])
  }

  /** The record is a fresh one with exactly the run's values in it. */
  ghost predicate IsRecordOf(q: Question, rr: Record, run: seq<Item>)
    requires AllNamed(run)
  {
    NewRecord(q).Some? && PutAll(q, NewRecord(q).value, run) == Ok(rr)
  }

  ghost predicate AreRecordsOf(q: Question, answer: seq<Record>, runs: seq<seq<Item>>)
    requires forall run :: run in runs ==> AllNamed(run)
  {
    |answer| == |runs| && forall k :: 0 <= k < |runs| ==> IsRecordOf(q, answer[k], runs[k])
  }

  lemma {:induction false} SuccessMeansNamed(q: Question, st: State, items: seq<Item>)
    requires Fold(q, st, items).error == None
    ensures AllNamed(items)
    decreases |items|
  {
    hide Open, Write;
    if items != [] {
      SuccessMeansNamed(q, Step(q, st, items[0]).st, items[1..]);
    }
  }

  /** Response codes do not touch records, and record fields are put as they are. */
  lemma WriteIsPut(q: Question, st: State, item: Item)
    requires IsNamed(item) && st.answer != [] && Write(q, st, NameOf(item), item.data).error == None
    ensures var w := Write(q, st, NameOf(item), item.data).st;
            var last := |st.answer| - 1;
            var rr := Put(q, st.answer[last], NameOf(item), item.data);
            rr.Ok? && w.answer == st.answer[last := rr.value] && w.fields == st.fields + {NameOf(item)}
  {
  }

  /** Inside a run every value goes into the last record. */
  lemma {:induction false} FoldInRun(q: Question, a: seq<Record>, rr: Record, rcode: int,
                                     items: seq<Item>, i: nat, n: nat) returns (rcode': int)
    requires AllNamed(items) && i <= n <= |items| && Distinct(items[..n])
    requires Fold(q, State(rcode, a + [rr], Names(items[..i])), items[i..]).error == None
    ensures var r := PutAll(q, rr, items[i..n]);
            && r.Ok?
            && Fold(q, State(rcode, a + [rr], Names(items[..i])), items[i..]) ==
               Fold(q, State(rcode', a + [r.value], Names(items[..n])), items[n..])
    decreases n - i
  {
    hide Put, Write;
    rcode' := rcode;
    if i < n {
      var st, item := State(rcode, a + [rr], Names(items[..i])), items[i];
      assert items[i..][0] == item && items[i..][1..] == items[i + 1..];
      assert items[i..n][0] == item && items[i..n][1..] == items[i + 1..n];
      assert NameOf(item) !in st.fields by {
        assert items[..n][i] == item;
        assert forall j :: 0 <= j < i ==> items[..n][j] == items[..i][j];
      }
      WriteIsPut(q, st, item);
      var next := Write(q, st, NameOf(item), item.data).st;
      var rr' := Put(q, rr, NameOf(item), item.data).value;
      assert next.answer == a + [rr'];
      assert items[..i + 1] == items[..i] + [item];
      NamesSnoc(items[..i], item);
      rcode' := FoldInRun(q, a, rr', next.rcode, items, i + 1, n);
    }
  }

  lemma NamesSnoc(items: seq<Item>, item: Item)
    requires AllNamed(items) && IsNamed(item)
    ensures AllNamed(items + [item]) && Names(items + [item]) == Names(items) + {NameOf(item)}
  {
    var all := items + [item];
    assert forall i :: 0 <= i < |items| ==> all[i] == items[i];
    assert all[|items|] == item;
    forall name | name in Names(items) ensures name in Names(all) {
      var i :| 0 <= i < |items| && NameOf(items[i]) == name;
      assert NameOf(all[i]) == name;
    }
  }

  /** From a state that opens a record, the values make one record for every greedy run. */
  lemma {:induction false} FoldIsRuns(q: Question, st: State, items: seq<Item>)
    requires AllNamed(items) && (items != [] ==> Opens(st, NameOf(items[0])))
    requires Fold(q, st, items).error == None
    ensures var answer := Fold(q, st, items).st.answer;
            && st.answer <= answer
            && AreRecordsOf(q, answer[|st.answer|..], Runs(items))
    decreases |items|
  {
    hide Put, Write, PutAll, FirstRun, Distinct, AreRecordsOf;
    if items == [] {
      assert st.answer[|st.answer|..] == [];
      NoRecords(q);
    } else {
      var n := FirstRun(items);
      var blank := NewRecord(q).value;
      var a := st.answer;
      var began := State(st.rcode, a + [blank], {});
      assert Fold(q, st, items) == Fold(q, began, items) by { SameStart(q, st, items); }
      assert Names(items[..0]) == {};
      assert items[0..] == items;
      var rc := FoldInRun(q, a, blank, st.rcode, items, 0, n);
      assert items[0..n] == items[..n];
      var rr := PutAll(q, blank, items[..n]).value;
      var st' := State(rc, a + [rr], Names(items[..n]));
      FoldIsRuns(q, st', items[n..]);
      var answer := Fold(q, st, items).st.answer;
      assert answer[|a|..] == [rr] + answer[|a| + 1..];
      OneMoreRecord(q, rr, items[..n], answer[|a| + 1..], Runs(items[n..]));
    }
  }

  lemma NoRecords(q: Question)
    ensures AreRecordsOf(q, [], [])
  {
  }

  lemma OneMoreRecord(q: Question, rr: Record, run: seq<Item>, answer: seq<Record>, runs: seq<seq<Item>>)
    requires AllNamed(run) && IsRecordOf(q, rr, run)
    requires (forall other :: other in runs ==> AllNamed(other)) && AreRecordsOf(q, answer, runs)
    ensures AreRecordsOf(q, [rr] + answer, [run] + runs)
  {
    hide IsRecordOf, AllNamed;
  }

  /** Opening the record first changes nothing. */
  lemma SameStart(q: Question, st: State, items: seq<Item>)
    requires AllNamed(items) && items != [] && Opens(st, NameOf(items[0])) && Fold(q, st, items).error == None
    ensures NewRecord(q).Some?
    ensures Fold(q, st, items) == Fold(q, State(st.rcode, st.answer + [NewRecord(q).value], {}), items)
  {
    hide Put, Write;
  }

  /** A successful call on a message without answers fills one record for every greedy run, and no others. */
  lemma OneRecordPerRun(q: Question, rcode: int, items: seq<Item>)
    requires Fold(q, State(rcode, [], {}), items).error == None
    ensures AllNamed(items) && AreRecordsOf(q, Fold(q, State(rcode, [], {}), items).st.answer, Runs(items))
  {
    SuccessMeansNamed(q, State(rcode, [], {}), items);
    FoldIsRuns(q, State(rcode, [], {}), items);
    var answer := Fold(q, State(rcode, [], {}), items).st.answer;
    assert answer[0..] == answer;
  }

  predicate IsRcode(item: Item) {
    IsNamed(item) && NameOf(item) == RCODE
  }

  /** The response code is that of the last item that sets one, or the one the message came with. */
  lemma {:induction false} RcodeIsLast(q: Question, st: State, items: seq<Item>) returns (k: int)
    requires Fold(q, st, items).error == None
    ensures var rcode := Fold(q, st, items).st.rcode;
            && k < |items|
            && (if k < 0 then rcode == st.rcode else IsRcode(items[k]) && items[k].data.number == Some(rcode))
    ensures forall j :: 0 <= j < |items| && j > k ==> !IsRcode(items[j])
    decreases |items|
  {
    hide Put, Open;
    k := -1;
    if items != [] {
      StepRcode(q, st, items[0]);
      k := RcodeIsLast(q, Step(q, st, items[0]).st, items[1..]);
      assert forall j :: 0 <= j < |items[1..]| ==> items[1..][j] == items[j + 1];
      k := if k >= 0 then k + 1 else if IsRcode(items[0]) then 0 else -1;
      assert forall j :: 0 < j < |items| ==> items[j] == items[1..][j - 1];
    }
  }

  lemma StepRcode(q: Question, st: State, item: Item)
    requires Step(q, st, item).error == None
    ensures if IsRcode(item) then item.data.number == Some(Step(q, st, item).st.rcode)
            else Step(q, st, item).st.rcode == st.rcode
  {
  }

  // ----- what a record holds

  datatype Content = Number(n: nat) | Text(t: string) | Nothing

  function Get(rr: Record, name: string): Content {
    if !rr.Naptr? then Nothing
    else if name == ORDER then Number(rr.order)
    else if name == PREFERENCE then Number(rr.preference)
    else if name == FLAGS then Text(rr.flags)
    else if name == SERVICE then Text(rr.service)
    else if name == REGEXP then Text(rr.regexp)
    else if name == REPLACEMENT then Text(rr.replacement)
    else Nothing
  }

  /** Names are told apart by their length or their first letters. */
  lemma NamesDiffer()
    ensures |ORDER| == 5 && |PREFERENCE| == 10 && |FLAGS| == 5 && |SERVICE| == 7 && |REGEXP| == 6 && |REPLACEMENT| == 11
    ensures ORDER[0] != FLAGS[0]
  {
  }

  lemma PutOne(q: Question, rr: Record, name: string, data: Data)
    requires IsNaptrField(name) && Put(q, rr, name, data).Ok?
    ensures var after := Put(q, rr, name, data).value;
            && after.Naptr?
            && Get(after, name) == (if name == ORDER || name == PREFERENCE
                                    then Number(Uint16(data.number.value)) else Text(data.text))
  {
    NamesDiffer();
  }

  lemma PutKeeps(q: Question, rr: Record, name: string, data: Data, other: string)
    requires Put(q, rr, name, data).Ok? && other != name
    ensures Get(Put(q, rr, name, data).value, other) == Get(rr, other)
  {
    NamesDiffer();
  }

  lemma {:induction false} PutAllKeeps(q: Question, rr: Record, run: seq<Item>, other: string)
    requires AllNamed(run) && PutAll(q, rr, run).Ok? && other !in Names(run)
    ensures Get(PutAll(q, rr, run).value, other) == Get(rr, other)
    decreases |run|
  {
    hide Put, Get;
    if run != [] {
      PutKeeps(q, rr, NameOf(run[0]), run[0].data, other);
      assert forall i :: 0 <= i < |run[1..]| ==> run[1..][i] == run[i + 1];
      PutAllKeeps(q, Put(q, rr, NameOf(run[0]), run[0].data).value, run[1..], other);
    }
  }

  /** Every value of a run is read back from its record; numbers that fit sixteen bits unchanged. */
  lemma {:induction false} RecordHolds(q: Question, rr: Record, run: seq<Item>, k: nat)
    requires AllNamed(run) && Distinct(run) && PutAll(q, rr, run).Ok?
    requires k < |run| && IsNaptrField(NameOf(run[k]))
    ensures var name, data := NameOf(run[k]), run[k].data;
            Get(PutAll(q, rr, run).value, name) ==
            if name == ORDER || name == PREFERENCE
            then (if data.number.Some? then Number(Uint16(data.number.value)) else Nothing)
            else Text(data.text)
    decreases |run|
  {
    hide Put, Get;
    var name, data := NameOf(run[0]), run[0].data;
    var rr' := Put(q, rr, name, data).value;
    assert forall i :: 0 <= i < |run[1..]| ==> run[1..][i] == run[i + 1];
    if k == 0 {
      PutOne(q, rr, name, data);
      PutAllKeeps(q, rr', run[1..], name);
      if name == ORDER || name == PREFERENCE {
        NumberWasThere(q, rr, name, data);
      }
    } else {
      RecordHolds(q, rr', run[1..], k - 1);
    }
  }

  lemma NumberWasThere(q: Question, rr: Record, name: string, data: Data)
    requires IsNaptrField(name) && Put(q, rr, name, data).Ok? && (name == ORDER || name == PREFERENCE)
    ensures data.number.Some?
  {
  }

  // ----- records, field by field

  lemma PutKeepsHeader(q: Question, rr: Record, name: string, data: Data)
    requires Put(q, rr, name, data).Ok?
    ensures var after := Put(q, rr, name, data).value; after.name == rr.name && (after.Naptr? <==> rr.Naptr?)
  {
  }

  lemma {:induction false} PutAllKeepsHeader(q: Question, rr: Record, run: seq<Item>)
    requires AllNamed(run) && PutAll(q, rr, run).Ok?
    ensures var after := PutAll(q, rr, run).value; after.name == rr.name && (after.Naptr? <==> rr.Naptr?)
    decreases |run|
  {
    hide Put;
    if run != [] {
      PutKeepsHeader(q, rr, NameOf(run[0]), run[0].data);
      PutAllKeepsHeader(q, Put(q, rr, NameOf(run[0]), run[0].data).value, run[1..]);
    }
  }

  /** A record answers the question: its name, and its type. */
  lemma RecordAnswers(q: Question, rr: Record, run: seq<Item>)
    requires AllNamed(run) && IsRecordOf(q, rr, run)
    ensures rr.name == q.name && (rr.Naptr? <==> q.kind == TypeNaptr) && (rr.A? <==> q.kind == TypeA)
  {
    hide PutAll;
    PutAllKeepsHeader(q, NewRecord(q).value, run);
  }

  /** The value of each field of a record is that of the item with its name. */
  lemma RecordFields(q: Question, rr: Record, run: seq<Item>, k: nat)
    requires AllNamed(run) && Distinct(run) && IsRecordOf(q, rr, run) && rr.Naptr? && k < |run|
    ensures NameOf(run[k]) == "Order" ==> run[k].data.number.Some? && rr.order == run[k].data.number.value % 65536
    ensures NameOf(run[k]) == "Preference" ==> run[k].data.number.Some? && rr.preference == run[k].data.number.value % 65536
    ensures NameOf(run[k]) == "Flags" ==> rr.flags == run[k].data.text
    ensures NameOf(run[k]) == "Service" ==> rr.service == run[k].data.text
    ensures NameOf(run[k]) == "Regexp" ==> rr.regexp == run[k].data.text
    ensures NameOf(run[k]) == "Replacement" ==> rr.replacement == run[k].data.text
  {
    hide PutAll;
    NamesDiffer();
    if IsNaptrField(NameOf(run[k])) {
      RecordHolds(q, NewRecord(q).value, run, k);
    }
  }

  /** A field that no item names is as in a new record. */
  lemma UnnamedFields(q: Question, rr: Record, run: seq<Item>)
    requires AllNamed(run) && IsRecordOf(q, rr, run) && rr.Naptr?
    ensures "Order" !in Names(run) ==> rr.order == 0
    ensures "Preference" !in Names(run) ==> rr.preference == 0
    ensures "Flags" !in Names(run) ==> rr.flags == ""
    ensures "Service" !in Names(run) ==> rr.service == ""
    ensures "Regexp" !in Names(run) ==> rr.regexp == ""
    ensures "Replacement" !in Names(run) ==> rr.replacement == ""
  {
    hide PutAll, Names;
    NamesDiffer();
    RecordAnswers(q, rr, run);
    forall name | name !in Names(run) ensures Get(rr, name) == Get(NewRecord(q).value, name) {
      PutAllKeeps(q, NewRecord(q).value, run, name);
    }
  }

  // ----- which item lists succeed

  /** The value can be written for the question. */
  ghost predicate Writable(q: Question, item: Item) {
    && item.Item? && item.path != []
    && var name, data := item.path[0], item.data;
       && (name == "Rcode" ==> data.number.Some?)
       && (name in {"Order", "Preference", "Flags", "Service", "Regexp", "Replacement"} ==> q.kind == TypeNaptr)
       && (name == "Order" || name == "Preference" ==> data.number.Some?)
  }

  /** All records are of the question's type. */
  ghost predicate RightType(q: Question, answer: seq<Record>) {
    forall rr :: rr in answer ==> (rr.Naptr? <==> q.kind == TypeNaptr)
  }

  lemma WriteSucceeds(q: Question, st: State, item: Item)
    requires item.Item? && item.path != [] && st.answer != [] && RightType(q, st.answer)
    ensures Write(q, st, item.path[0], item.data).error == None <==> Writable(q, item)
    ensures RightType(q, Write(q, st, item.path[0], item.data).st.answer)
  {
    hide Uint16;
    var name, last := item.path[0], st.answer[|st.answer| - 1];
    assert last in st.answer;
    NamesDiffer();
    RcodeIsNoField();
    assert IsNaptrField(name) <==> name in {"Order", "Preference", "Flags", "Service", "Regexp", "Replacement"};
    if name != RCODE && Put(q, last, name, item.data).Ok? {
      PutKeepsHeader(q, last, name, item.data);
    }
  }

  lemma RcodeIsNoField()
    ensures !IsNaptrField(RCODE) && |RCODE| == 5 && RCODE[0] != ORDER[0] && RCODE[0] != FLAGS[0]
  {
    NamesDiffer();
  }

  lemma StepSucceeds(q: Question, st: State, item: Item)
    requires RightType(q, st.answer)
    ensures Step(q, st, item).error == None <==> (st.answer != [] || q.kind != OtherType) && Writable(q, item)
                                                 && (IsNamed(item) && Opens(st, item.path[0]) ==> q.kind != OtherType)
    ensures RightType(q, Step(q, st, item).st.answer)
    ensures Step(q, st, item).error == None ==> Step(q, st, item).st.answer != []
  {
    hide Write, Writable;
    if item.Item? && item.path != [] {
      var next := Open(q, st, item.path[0]);
      if next.error == None {
        WriteSucceeds(q, next.st, item);
        WriteKeepsSome(q, next.st, item);
      }
    } else {
      NotWritable(q, item);
    }
  }

  lemma WriteKeepsSome(q: Question, st: State, item: Item)
    requires IsNamed(item) && st.answer != []
    ensures Write(q, st, item.path[0], item.data).st.answer != []
  {
    hide Put;
  }

  lemma NotWritable(q: Question, item: Item)
    requires !(item.Item? && item.path != [])
    ensures !Writable(q, item)
  {
  }

  /**
   On a message without answers a call succeeds if and only if the question has a supported
   type, or there is nothing to write, and every item is named, is for a NAPTR question if it
   names a NAPTR field, and has a number where one is needed.
   */
  lemma {:induction false} SucceedsExactly(q: Question, st: State, items: seq<Item>)
    requires RightType(q, st.answer) && (q.kind == OtherType ==> st.answer == [])
    ensures Fold(q, st, items).error == None <==>
            (items == [] || q.kind != OtherType) && forall item :: item in items ==> Writable(q, item)
    decreases |items|
  {
    hide Step, Writable, RightType;
    if items != [] {
      assert items[0] in items;
      StepSucceeds(q, st, items[0]);
      if Step(q, st, items[0]).error == None {
        SucceedsExactly(q, Step(q, st, items[0]).st, items[1..]);
      }
    }
  }

  /** Why an item that is not writable is refused. */
  function Refusal(q: Question, item: Item): Error {
    match item
    case Unreadable => NoField
    case NotAnItem => NoItem
    case Item(path, data) =>
      if path == [] then EmptyPath
      else if q.kind == OtherType then UnsupportedType
      else if path[0] == "Rcode" then NotANumber("Rcode")
      else if q.kind != TypeNaptr then OnlyNaptr(path[0])
      else NotANumber(path[0])
  }

  lemma StepRefuses(q: Question, st: State, item: Item)
    requires RightType(q, st.answer) && (q.kind == OtherType ==> st.answer == []) && Step(q, st, item).error.Some?
    ensures Step(q, st, item).error == Some(Refusal(q, item))
    ensures q.kind == OtherType || !Writable(q, item)
  {
    hide Uint16;
    NamesDiffer();
    RcodeIsNoField();
    StepSucceeds(q, st, item);
    if st.answer != [] {
      assert st.answer[|st.answer| - 1] in st.answer;
    }
  }

  /** A call that fails reports the refusal of the first item that is not accepted. */
  lemma {:induction false} FirstRefusal(q: Question, st: State, items: seq<Item>) returns (k: nat)
    requires RightType(q, st.answer) && (q.kind == OtherType ==> st.answer == []) && Fold(q, st, items).error.Some?
    ensures k < |items| && Fold(q, st, items).error == Some(Refusal(q, items[k]))
    ensures q.kind == OtherType || !Writable(q, items[k])
    ensures forall j :: 0 <= j < k ==> Writable(q, items[j])
    decreases |items|
  {
    hide Step, Writable, RightType, Refusal;
    k := 0;
    StepSucceeds(q, st, items[0]);
    if Step(q, st, items[0]).error.Some? {
      StepRefuses(q, st, items[0]);
    } else {
      k := FirstRefusal(q, Step(q, st, items[0]).st, items[1..]);
      assert forall j :: 0 < j < k + 1 ==> items[j] == items[1..][j - 1];
      k := k + 1;
    }
  }
}
