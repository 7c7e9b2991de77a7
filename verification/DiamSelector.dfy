/**
 Choosing one of several pairs by piped filters: each filter counts for the indexes whose
 counterpart passes it, and an index that every filter counted is taken, whatever the order
 in which the map of counts is walked.
 */
module DiamSelector {
  import opened Wrappers
  import opened DiamTree

  datatype Verdict = Passes | FailsFilter | CannotEvaluate

  datatype Filter =
    | EmptyRule                                          // compiles to a nil parser
    | InvalidRule
    | Rule(code: Option<nat>, verdict: Avp -> Verdict)   // no code: the attribute is not in the dictionary

  datatype Stop = Crash | BadRule | UnknownAttribute | NotFound | NotEvaluated

  datatype Searched = Searched(path: Path, found: seq<Avp>)

  /** Replaces ever earlier ends of the path by the filter's attribute until something is found. */
  function Search(avps: seq<Avp>, path: Path, code: nat): (s: Searched)
    ensures |s.path| <= |path|
    ensures s.found != [] ==> |s.path| > 1 && Last(s.path) == code && Find(avps, s.path) == s.found
    decreases |path|
  {
    if |path| <= 1 then Searched(path, [])
    else
      var p := Init(path) + [code];
      if Find(avps, p) != [] || |path| == 2 then Searched(p, Find(avps, p))
      else Search(avps, Init(path), code)
  }

  /** Which of the pairs a filter passes; an error ends the row. */
  function Row(found: seq<Avp>, verdict: Avp -> Verdict): (r: Option<seq<bool>>)
    ensures r.Some? <==> forall k :: 0 <= k < |found| ==> verdict(found[k]) != CannotEvaluate
    ensures r.Some? ==>
              |r.value| == |found| && forall k :: 0 <= k < |found| ==> (r.value[k] <==> verdict(found[k]) == Passes)
  {
    if found == [] then Some([])
    else if verdict(found[0]) == CannotEvaluate then None
    else
      match Row(found[1..], verdict)
      case None => None
      case Some(rest) => Some([verdict(found[0]) == Passes] + rest)
  }

  /** One row per filter, or what stops the evaluation; the path is carried from filter to filter. */
  function Rows(avps: seq<Avp>, path: Path, n: nat, filters: seq<Filter>): (r: Result<seq<seq<bool>>, Stop>)
    ensures r.Ok? ==> |r.value| == |filters| && forall row :: row in r.value ==> |row| == n
    decreases filters
  {
    if filters == [] then Ok([])
    else
      match filters[0]
      case EmptyRule => Err(if |path| > 1 then Crash else NotFound)  // the attribute is asked for in the search only
      case InvalidRule => Err(BadRule)
      case Rule(code, verdict) =>
        if code.None? && |path| > 1 then Err(UnknownAttribute)
        else if code.None? then Err(NotFound)
        else
          var s := Search(avps, path, code.value);
          if s.found == [] || |s.found| != n then Err(NotFound)
          else
            match Row(s.found, verdict)
            case None => Err(NotEvaluated)
            case Some(row) =>
              match Rows(avps, s.path, n, filters[1..])
              case Err(e) => Err(e)
              case Ok(rest) => Ok([row] + rest)
  }

  lemma {:induction false} SearchStaysOnPath(avps: seq<Avp>, path: Path, code: nat)
    requires Search(avps, path, code).found != []
    ensures |path| > 1 && Init(Search(avps, path, code).path) <= Init(path)
    decreases |path|
  {
    hide Find;
    if |path| > 1 && Find(avps, Init(path) + [code]) == [] && |path| > 2 {
      SearchStaysOnPath(avps, Init(path), code);
    }
  }

  /** What is found is found under the longest prefix of the path that has anything, and nothing only if none has. */
  lemma {:induction false} SearchIsLongest(avps: seq<Avp>, path: Path, code: nat, i: nat)
    requires 0 < i < |path|
    ensures Search(avps, path, code).found == [] ==> Find(avps, path[..i] + [code]) == []
    ensures Find(avps, path[..i] + [code]) != [] ==> |Search(avps, path, code).path| > i
    ensures |Search(avps, path, code).path| == i + 1 ==>
              && Search(avps, path, code).path == path[..i] + [code]
              && Search(avps, path, code).found == Find(avps, path[..i] + [code])
    decreases |path|
  {
    hide Find;
    if i == |path| - 1 {
      assert path[..i] == Init(path);
      if |path| > 2 {
        ShorterSearch(avps, Init(path), code);
      }
    } else if Find(avps, Init(path) + [code]) == [] {
      SearchIsLongest(avps, Init(path), code, i);
      assert Init(path)[..i] == path[..i];
    }
  }

  /** The search never goes further down than the path. */
  lemma ShorterSearch(avps: seq<Avp>, path: Path, code: nat)
    ensures |Search(avps, path, code).path| <= |path|
  {
  }

  /**
   Row `f` is the verdict of filter `f` on the `n` pairs at a path that ends in the
   filter's attribute and otherwise leads along the selected pairs' own path.
   */
  lemma {:induction false} RowsAreVerdicts(avps: seq<Avp>, path: Path, n: nat, filters: seq<Filter>, f: nat)
    returns (p: Path)
    requires Rows(avps, path, n, filters).Ok? && f < |filters|
    ensures filters[f].Rule? && filters[f].code.Some?
    ensures |p| > 1 && |path| > 1 && Last(p) == filters[f].code.value && Init(p) <= Init(path)
    ensures var found := Find(avps, p);
            && |found| == n
            && forall k :: 0 <= k < n ==>
                 (Rows(avps, path, n, filters).value[f][k] <==> filters[f].verdict(found[k]) == Passes)
    decreases |filters|
  {
    hide Find, Search;
    var s := Search(avps, path, filters[0].code.value);
    SearchStaysOnPath(avps, path, filters[0].code.value);
    if f == 0 {
      p := s.path;
    } else {
      p := RowsAreVerdicts(avps, s.path, n, filters[1..], f - 1);
    }
  }

  /** Index `k` passes every row. */
  ghost predicate PassesAll(rows: seq<seq<bool>>, k: nat) {
    forall row :: row in rows ==> k < |row| && row[k]
  }

  /** How many rows pass index `k`. */
  ghost function Hits(rows: seq<seq<bool>>, k: nat): (h: nat)
    ensures h <= |rows|
  {
    if rows == [] then 0 else (if k < |rows[0]| && rows[0][k] then 1 else 0) + Hits(rows[1..], k)
  }

  lemma {:induction false} HitsAll(rows: seq<seq<bool>>, k: nat)
    ensures Hits(rows, k) == |rows| <==> PassesAll(rows, k)
    decreases |rows|
  {
    if rows != [] {
      HitsAll(rows[1..], k);
      assert rows == [rows[0]] + rows[1..];
    }
  }

  lemma {:induction false} HitsSnoc(rows: seq<seq<bool>>, row: seq<bool>, k: nat)
    ensures Hits(rows + [row], k) == Hits(rows, k) + if k < |row| && row[k] then 1 else 0
    decreases |rows|
  {
    if rows == [] {
      assert rows + [row] == [row];
      assert [row][1..] == [];
    } else {
      HitsSnoc(rows[1..], row, k);
      assert (rows + [row])[1..] == rows[1..] + [row];
    }
  }

  /** The map of counts, keyed one higher than the index, agrees with the rows seen so far. */
  ghost predicate Counts(selIndxs: map<nat, nat>, rows: seq<seq<bool>>) {
    && (forall key :: key in selIndxs ==> key >= 1 && selIndxs[key] == Hits(rows, key - 1))
    && (forall key :: key >= 1 && Hits(rows, key - 1) > 0 ==> key in selIndxs)
  }

  /** The search loop of one filter. */
  method FindFor(avps: seq<Avp>, path: Path, code: nat) returns (s: Searched)
    ensures s == Search(avps, path, code)
  {
    hide Find;
    var p, found: seq<Avp> := path, [];
    var i := |path| - 1;
    while i > 0
      invariant i <= |path| - 1 && found == []
      invariant i >= 0 ==> i < |p|
      invariant i == |path| - 1 ==> p == path
      invariant i < |path| - 1 ==> i >= 0 && |p| == i + 2 && p[..i + 1] == path[..i + 1] && Find(avps, p) == []
      invariant i < |path| - 1 ==> i == 0 ==> Search(avps, path, code) == Searched(p, [])
      invariant i < |path| - 1 ==> i > 0 ==> Search(avps, path, code) == Search(avps, path[..i + 1], code)
    {
      assert i < |path| - 1 ==> Init(path[..i + 1]) == path[..i];
      assert path[..|path|] == path;
      p := p[..i] + [code];
      found := Find(avps, p);
      assert p == Init(path[..i + 1]) + [code];
      if found != [] {
        break;
      }
      i := i - 1;
      assert Init(path[..i + 2]) == path[..i + 1];
    }
    return Searched(p, found);
  }

  /** Adds one filter's passes to the counts. */
  method CountRow(found: seq<Avp>, verdict: Avp -> Verdict, counts: map<nat, nat>, ghost rows: seq<seq<bool>>)
    returns (r: Option<map<nat, nat>>)
    requires Counts(counts, rows)
    ensures r.Some? <==> Row(found, verdict).Some?
    ensures r.Some? ==> Counts(r.value, rows + [Row(found, verdict).value])
  {
    hide Row, Hits;
    var selIndxs: map<nat, nat> := counts;
    for k := 0 to |found|
      invariant forall j :: 0 <= j < k ==> verdict(found[j]) != CannotEvaluate
      invariant forall key :: key in selIndxs ==> key >= 1
      invariant forall key :: k + 1 <= key ==> (key in selIndxs <==> key in counts)
      invariant forall key :: k + 1 <= key && key in selIndxs ==> selIndxs[key] == counts[key]
      invariant forall key :: 1 <= key <= k && key in selIndxs ==>
                  selIndxs[key] == Hits(rows, key - 1) + if verdict(found[key - 1]) == Passes then 1 else 0
      invariant forall key :: 1 <= key <= k && (Hits(rows, key - 1) > 0 || verdict(found[key - 1]) == Passes) ==>
                  key in selIndxs
    {
      match verdict(found[k])
      case CannotEvaluate => return None;
      case FailsFilter =>
      case Passes =>
        selIndxs := selIndxs[k + 1 := (if k + 1 in selIndxs then selIndxs[k + 1] else 0) + 1];
    }
    ghost var row := Row(found, verdict).value;
    forall k: nat ensures Hits(rows + [row], k) == Hits(rows, k) + if k < |row| && row[k] then 1 else 0 {
      HitsSnoc(rows, row, k);
    }
    return Some(selIndxs);
  }

  /**
   The index of a pair that passes every filter.  It is in range, and none is found
   exactly when no index passes all filters.
   */
  method Select(avps: seq<Avp>, path: Path, n: nat, filters: seq<Filter>) returns (r: Result<nat, Stop>)
    requires filters != []
    ensures match Rows(avps, path, n, filters)
            case Err(e) => r == Err(e)
            case Ok(rows) =>
              if exists k :: 0 <= k < n && PassesAll(rows, k)
              then r.Ok? && r.value < n && PassesAll(rows, r.value)
              else r == Err(NotFound)
  {
    hide Search, Row, Hits, PassesAll, Counts;
    var selIndxs: map<nat, nat> := map[];
    ghost var rows: seq<seq<bool>> := [];
    var p := path;
    NoCounts();
    assert filters[0..] == filters;
    assert forall rest :: rows + rest == rest;
    for f := 0 to |filters|
      invariant |rows| == f && forall row :: row in rows ==> |row| == n
      invariant Counts(selIndxs, rows)
      invariant Rows(avps, path, n, filters) ==
                match Rows(avps, p, n, filters[f..]) case Err(e) => Err(e) case Ok(rest) => Ok(rows + rest)
    {
      assert filters[f..][1..] == filters[f + 1..];
      match filters[f] {
        case EmptyRule => return Err(if |p| > 1 then Crash else NotFound);
        case InvalidRule => return Err(BadRule);
        case Rule(code, verdict) =>
          if code.None? {
            return Err(if |p| > 1 then UnknownAttribute else NotFound);
          }
          var s := FindFor(avps, p, code.value);
          if s.found == [] || |s.found| != n {
            return Err(NotFound);
          }
          var counted := CountRow(s.found, verdict, selIndxs, rows);
          if counted.None? {
            return Err(NotEvaluated);
          }
          ghost var before, row := rows, Row(s.found, verdict).value;
          rows := rows + [row];
          assert forall rest :: before + ([row] + rest) == rows + rest;
          p, selIndxs := s.path, counted.value;
      }
    }
    assert filters[|filters|..] == [] && rows + [] == rows;
    r := Choose(selIndxs, n, |filters|, rows);
  }

  lemma NoCounts()
    ensures Counts(map[], [])
  {
  }

  /** Walks the map of counts in any order. */
  method Choose(selIndxs: map<nat, nat>, n: nat, filters: nat, ghost rows: seq<seq<bool>>)
    returns (r: Result<nat, Stop>)
    requires filters == |rows| > 0 && Counts(selIndxs, rows)
    requires forall row :: row in rows ==> |row| == n
    ensures if exists k :: 0 <= k < n && PassesAll(rows, k)
            then r.Ok? && r.value < n && PassesAll(rows, r.value)
            else r == Err(NotFound)
  {
    hide Hits;
    var keys := selIndxs.Keys;
    while keys != {}
      invariant keys <= selIndxs.Keys
      invariant forall key :: key in selIndxs.Keys - keys ==> selIndxs[key] != filters
      decreases |keys|
    {
      var key :| key in keys;
      if selIndxs[key] == filters {
        HitsAll(rows, key - 1);
        assert rows[0] in rows;
        return Ok(key - 1);
      }
      keys := keys - {key};
    }
    forall k: nat | k < n ensures !PassesAll(rows, k) {
      HitsAll(rows, k);
      var key := k + 1;
      if key in selIndxs {
        assert selIndxs[key] != filters;
      } else {
        assert Hits(rows, key - 1) == 0;
      }
    }
    return Err(NotFound);
  }
}
