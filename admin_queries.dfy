/**
 * The two read-only admin queries of the ticket controller: the ticket search
 * of `buscar_turnos_admin` (a filtered, date-descending list of at most 50
 * tickets) and the per-municipality tally of `get_stats_dashboard`.
 */
module AdminQueries {
  import opened Ledger
  import opened Slots

  /** The LIMIT of the search. */
  const SearchLimit := 50

  // ---------------------------------------------------------------------
  // buscar_turnos_admin
  // ---------------------------------------------------------------------

  /** ASCII lower-casing, the case folding ILIKE applies to the letters A-Z. */
  function LowerChar(c: char): char
  {
    if 'A' <= c <= 'Z' then (c as int + 32) as char else c
  }

  function Lower(s: string): string
  {
    seq(|s|, i requires 0 <= i < |s| => LowerChar(s[i]))
  }

  /** `q` occurs in `s` at position `i`, ignoring case. */
  predicate OccursAt(s: string, q: string, i: int)
  {
    0 <= i && i + |q| <= |s| && Lower(s[i..i + |q|]) == Lower(q)
  }

  /** `s ILIKE '%q%'`: `q` occurs somewhere in `s`, ignoring case. */
  predicate ContainsIgnoringCase(s: string, q: string)
  {
    exists i :: 0 <= i <= |s| - |q| && OccursAt(s, q, i)
  }

  /**
   * The WHERE clause of the search: the ticket joins its requester; a
   * non-empty query must occur in the CURP or the first name; the
   * "cancelados" view lists cancelled tickets, any other view the rest.
   */
  predicate Listed(t: Ticket, requesters: seq<Requester>, query: string, vista: string)
  {
    && t.requester < |requesters|
    && (query != [] ==>
          ContainsIgnoringCase(requesters[t.requester].curp, query)
          || ContainsIgnoringCase(requesters[t.requester].data.nombre, query))
    && (if vista == "cancelados" then t.estado == Cancelado else t.estado != Cancelado)
  }

  /** `fecha_solicitud` as one number: the date and the minute of the appointment. */
  function KeyOf(tickets: seq<Ticket>, id: nat): int
  {
    if id < |tickets| then tickets[id].date * 1440 + tickets[id].time else 0
  }

  predicate SortedDesc(tickets: seq<Ticket>, s: seq<nat>)
  {
    forall i, j :: 0 <= i < j < |s| ==> KeyOf(tickets, s[i]) >= KeyOf(tickets, s[j])
  }

  predicate Distinct(s: seq<nat>)
  {
    forall i, j :: 0 <= i < j < |s| ==> s[i] != s[j]
  }

  /** The ids of the listed tickets from `k` on, in id order. */
  function MatchingFrom(tickets: seq<Ticket>, requesters: seq<Requester>, query: string, vista: string, k: nat): (r: seq<nat>)
    requires k <= |tickets|
    ensures forall j :: 0 <= j < |r| ==> k <= r[j] < |tickets| && Listed(tickets[r[j]], requesters, query, vista)
    ensures forall id: nat :: k <= id < |tickets| && Listed(tickets[id], requesters, query, vista) ==> id in r
    ensures forall i, j :: 0 <= i < j < |r| ==> r[i] < r[j]
    decreases |tickets| - k
  {
    if k == |tickets| then []
    else if Listed(tickets[k], requesters, query, vista) then [k] + MatchingFrom(tickets, requesters, query, vista, k + 1)
    else MatchingFrom(tickets, requesters, query, vista, k + 1)
  }

  /** Puts `id` in front of the first entry whose key is not larger. */
  function Insert(tickets: seq<Ticket>, id: nat, s: seq<nat>): seq<nat>
  {
    if s == [] then [id]
    else if KeyOf(tickets, id) >= KeyOf(tickets, s[0]) then [id] + s
    else [s[0]] + Insert(tickets, id, s[1..])
  }

  /** ORDER BY fecha_solicitud DESC, as an insertion sort. */
  function SortDesc(tickets: seq<Ticket>, s: seq<nat>): seq<nat>
  {
    if s == [] then [] else Insert(tickets, s[0], SortDesc(tickets, s[1..]))
  }

  /** The ids `buscar_turnos_admin` returns, first to last. */
  function SearchTickets(tickets: seq<Ticket>, requesters: seq<Requester>, query: string, vista: string): seq<nat>
  {
    var sorted := SortDesc(tickets, MatchingFrom(tickets, requesters, query, vista, 0));
    if |sorted| <= SearchLimit then sorted else sorted[..SearchLimit]
  }

  /** Every entry after the head of a sorted sequence has a key no larger than the head's. */
  lemma HeadIsLatest(tickets: seq<Ticket>, s: seq<nat>, x: nat)
    requires s != [] && SortedDesc(tickets, s) && x in s[1..]
    ensures KeyOf(tickets, x) <= KeyOf(tickets, s[0])
  {
    var j :| 0 <= j < |s[1..]| && s[1..][j] == x;
    assert s[j + 1] == x;
  }

  /** Putting an entry at least as late as all others in front keeps a sequence sorted. */
  lemma ConsSorted(tickets: seq<Ticket>, h: nat, s: seq<nat>)
    requires SortedDesc(tickets, s)
    requires forall k :: 0 <= k < |s| ==> KeyOf(tickets, s[k]) <= KeyOf(tickets, h)
    ensures SortedDesc(tickets, [h] + s)
  {
    var r := [h] + s;
    forall a, b | 0 <= a < b < |r| ensures KeyOf(tickets, r[a]) >= KeyOf(tickets, r[b]) {
      assert r[b] == s[b - 1];
      if a > 0 {
        assert r[a] == s[a - 1];
      }
    }
  }

  /** Inserting into a sorted sequence keeps it sorted and adds exactly `id`. */
  lemma {:induction false} InsertSorted(tickets: seq<Ticket>, id: nat, s: seq<nat>)
    requires SortedDesc(tickets, s)
    ensures SortedDesc(tickets, Insert(tickets, id, s))
    ensures multiset(Insert(tickets, id, s)) == multiset(s) + multiset{id}
  {
    if s == [] {
    } else if KeyOf(tickets, id) >= KeyOf(tickets, s[0]) {
      forall k | 0 <= k < |s| ensures KeyOf(tickets, s[k]) <= KeyOf(tickets, id) {
        if k > 0 {
          assert KeyOf(tickets, s[0]) >= KeyOf(tickets, s[k]);
        }
      }
      ConsSorted(tickets, id, s);
    } else {
      var tail := s[1..];
      TailSorted(tickets, s);
      InsertSorted(tickets, id, tail);
      var rest := Insert(tickets, id, tail);
      assert s == [s[0]] + tail;
      InsertBelowHead(tickets, s, id, rest);
      ConsSorted(tickets, s[0], rest);
    }
  }

  lemma TailSorted(tickets: seq<Ticket>, s: seq<nat>)
    requires s != [] && SortedDesc(tickets, s)
    ensures SortedDesc(tickets, s[1..])
  {
    var tail := s[1..];
    forall a, b | 0 <= a < b < |tail| ensures KeyOf(tickets, tail[a]) >= KeyOf(tickets, tail[b]) {
      assert tail[a] == s[a + 1] && tail[b] == s[b + 1];
    }
  }

  /** What results from inserting a later-keyed id into the tail stays at or below the head's key. */
  lemma InsertBelowHead(tickets: seq<Ticket>, s: seq<nat>, id: nat, rest: seq<nat>)
    requires s != [] && SortedDesc(tickets, s) && KeyOf(tickets, id) < KeyOf(tickets, s[0])
    requires multiset(rest) == multiset(s[1..]) + multiset{id}
    ensures forall k :: 0 <= k < |rest| ==> KeyOf(tickets, rest[k]) <= KeyOf(tickets, s[0])
  {
    forall k | 0 <= k < |rest| ensures KeyOf(tickets, rest[k]) <= KeyOf(tickets, s[0]) {
      assert rest[k] in multiset(rest);
      if rest[k] != id {
        assert rest[k] in multiset(s[1..]);
        HeadIsLatest(tickets, s, rest[k]);
      }
    }
  }

  /** The insertion sort returns a sorted permutation of its input. */
  lemma {:induction false} SortDescSorted(tickets: seq<Ticket>, s: seq<nat>)
    ensures SortedDesc(tickets, SortDesc(tickets, s))
    ensures multiset(SortDesc(tickets, s)) == multiset(s)
  {
    if s != [] {
      SortDescSorted(tickets, s[1..]);
      InsertSorted(tickets, s[0], SortDesc(tickets, s[1..]));
      assert s == [s[0]] + s[1..];
    }
  }

  /** A sequence without repetitions counts each element at most once. */
  lemma {:induction false} DistinctCountsOnce(s: seq<nat>, x: nat)
    requires Distinct(s)
    ensures multiset(s)[x] <= 1
  {
    if s != [] {
      var tail := s[1..];
      assert s == [s[0]] + tail;
      assert Distinct(tail) by {
        forall i, j | 0 <= i < j < |tail| ensures tail[i] != tail[j] {
          assert tail[i] == s[i + 1] && tail[j] == s[j + 1];
        }
      }
      DistinctCountsOnce(tail, x);
      if s[0] == x {
        forall j | 0 <= j < |tail| ensures tail[j] != x {
          assert tail[j] == s[j + 1];
        }
      }
    }
  }

  /** A permutation of a sequence without repetitions has none either. */
  lemma PermutationKeepsDistinct(a: seq<nat>, b: seq<nat>)
    requires Distinct(a) && multiset(a) == multiset(b)
    ensures Distinct(b)
  {
    forall i, j | 0 <= i < j < |b| ensures b[i] != b[j] {
      if b[i] == b[j] {
        assert b == b[..i] + [b[i]] + b[i + 1..j] + [b[j]] + b[j + 1..];
        DistinctCountsOnce(a, b[i]);
      }
    }
  }

  /** The listed ids, sorted: a sorted permutation of the listed ids without repetitions. */
  lemma SortedMatches(tickets: seq<Ticket>, requesters: seq<Requester>, query: string, vista: string)
    ensures var sorted := SortDesc(tickets, MatchingFrom(tickets, requesters, query, vista, 0));
      && SortedDesc(tickets, sorted) && Distinct(sorted)
      && forall id: nat :: id in sorted <==> id < |tickets| && Listed(tickets[id], requesters, query, vista)
  {
    var m := MatchingFrom(tickets, requesters, query, vista, 0);
    var sorted := SortDesc(tickets, m);
    SortDescSorted(tickets, m);
    PermutationKeepsDistinct(m, sorted);
    forall id: nat ensures id in sorted <==> id in m {
      assert id in sorted <==> id in multiset(sorted);
      assert id in m <==> id in multiset(m);
    }
  }

  /**
   * The search result: listed tickets only, each once, latest appointment
   * first, at most 50 of them; a listed ticket is left out only when 50
   * tickets with an appointment at least as late were listed instead.
   */
  lemma SearchTicketsSpec(tickets: seq<Ticket>, requesters: seq<Requester>, query: string, vista: string)
    ensures var r := SearchTickets(tickets, requesters, query, vista);
      && |r| <= SearchLimit
      && (forall j :: 0 <= j < |r| ==> r[j] < |tickets| && Listed(tickets[r[j]], requesters, query, vista))
      && Distinct(r)
      && SortedDesc(tickets, r)
      && (forall id: nat :: id < |tickets| && Listed(tickets[id], requesters, query, vista) && id !in r ==>
            |r| == SearchLimit && forall j :: 0 <= j < |r| ==> KeyOf(tickets, r[j]) >= KeyOf(tickets, id))
  {
    var sorted := SortDesc(tickets, MatchingFrom(tickets, requesters, query, vista, 0));
    SortedMatches(tickets, requesters, query, vista);
    TakeLimit(tickets, requesters, query, vista, sorted);
  }

  /** Keeping the first `SearchLimit` entries of the sorted listed ids keeps the latest tickets. */
  lemma TakeLimit(tickets: seq<Ticket>, requesters: seq<Requester>, query: string, vista: string, sorted: seq<nat>)
    requires SortedDesc(tickets, sorted) && Distinct(sorted)
    requires forall id: nat :: id in sorted <==> id < |tickets| && Listed(tickets[id], requesters, query, vista)
    ensures var r := if |sorted| <= SearchLimit then sorted else sorted[..SearchLimit];
      && |r| <= SearchLimit
      && (forall j :: 0 <= j < |r| ==> r[j] < |tickets| && Listed(tickets[r[j]], requesters, query, vista))
      && Distinct(r)
      && SortedDesc(tickets, r)
      && (forall id: nat :: id < |tickets| && Listed(tickets[id], requesters, query, vista) && id !in r ==>
            |r| == SearchLimit && forall j :: 0 <= j < |r| ==> KeyOf(tickets, r[j]) >= KeyOf(tickets, id))
  {
    var r := if |sorted| <= SearchLimit then sorted else sorted[..SearchLimit];
    var n := |r|;
    assert r == sorted[..n];
    assert n < SearchLimit ==> r == sorted;
    TopOfSorted(tickets, sorted, n);
    forall j | 0 <= j < n ensures r[j] < |tickets| && Listed(tickets[r[j]], requesters, query, vista) {
      assert r[j] in r;
    }
    forall id: nat | id < |tickets| && Listed(tickets[id], requesters, query, vista) && id !in r
      ensures n == SearchLimit && forall j :: 0 <= j < n ==> KeyOf(tickets, r[j]) >= KeyOf(tickets, id)
    {
      forall j | 0 <= j < n ensures sorted[j] != id {
        assert sorted[j] == r[j] && r[j] in r;
      }
      var k :| 0 <= k < |sorted| && sorted[k] == id;
      assert k >= n;
    }
  }

  /** The first `n` entries of a sorted sequence without repeats: still sorted, still without repeats, and none later in the sequence has a larger key. */
  lemma TopOfSorted(tickets: seq<Ticket>, s: seq<nat>, n: nat)
    requires n <= |s| && SortedDesc(tickets, s) && Distinct(s)
    ensures SortedDesc(tickets, s[..n]) && Distinct(s[..n])
    ensures forall x :: x in s[..n] ==> x in s
    ensures forall k, j :: n <= k < |s| && 0 <= j < n ==> KeyOf(tickets, s[..n][j]) >= KeyOf(tickets, s[k])
  {
    var t := s[..n];
    forall i, j | 0 <= i < j < |t| ensures KeyOf(tickets, t[i]) >= KeyOf(tickets, t[j]) && t[i] != t[j] {
      assert t[i] == s[i] && t[j] == s[j];
    }
    forall k, j | n <= k < |s| && 0 <= j < n ensures KeyOf(tickets, t[j]) >= KeyOf(tickets, s[k]) {
      assert t[j] == s[j];
    }
  }

  /** Below the limit the search returns every listed ticket. */
  lemma SearchTicketsComplete(tickets: seq<Ticket>, requesters: seq<Requester>, query: string, vista: string)
    ensures var r := SearchTickets(tickets, requesters, query, vista);
      |r| < SearchLimit ==>
        forall id: nat :: id < |tickets| && Listed(tickets[id], requesters, query, vista) ==> id in r
  {
    SearchTicketsSpec(tickets, requesters, query, vista);
  }

  // ---------------------------------------------------------------------
  // get_stats_dashboard: the aggregation loop
  // ---------------------------------------------------------------------

  /** One row of the grouped query: municipality name, status text, ticket count. */
  datatype StatRow = StatRow(muni: string, estado: string, total: int)

  /** The `{'pendiente': …, 'resuelto': …, 'cancelado': …}` counters of one municipality. */
  datatype Tally = Tally(pendiente: int, resuelto: int, cancelado: int)

  predicate KnownEstado(estado: string)
  {
    estado == "pendiente" || estado == "resuelto" || estado == "cancelado"
  }

  /** The counter of `estado` in a tally. */
  function Field(t: Tally, estado: string): int
    requires KnownEstado(estado)
  {
    if estado == "pendiente" then t.pendiente
    else if estado == "resuelto" then t.resuelto
    else t.cancelado
  }

  /** `municipios_proc[muni][estado] = total`, applied only to a key the dict has. */
  function Put(t: Tally, estado: string, total: int): (r: Tally)
    ensures KnownEstado(estado) ==> Field(r, estado) == total
    ensures forall e :: KnownEstado(e) && e != estado ==> Field(r, e) == Field(t, e)
  {
    if estado == "pendiente" then t.(pendiente := total)
    else if estado == "resuelto" then t.(resuelto := total)
    else if estado == "cancelado" then t.(cancelado := total)
    else t
  }

  /** The dict the loop has built after the given rows. */
  function Aggregate(rows: seq<StatRow>): map<string, Tally>
  {
    if rows == [] then map[]
    else
      var m := Aggregate(rows[..|rows| - 1]);
      var row := rows[|rows| - 1];
      var base := if row.muni in m then m[row.muni] else Tally(0, 0, 0);
      m[row.muni := Put(base, row.estado, row.total)]
  }

  /** The aggregation loop of get_stats_dashboard. */
  method AggregateByMunicipality(rows: seq<StatRow>) returns (m: map<string, Tally>)
    ensures m == Aggregate(rows)
  {
    m := map[];
    var i := 0;
    while i < |rows|
      invariant 0 <= i <= |rows|
      invariant m == Aggregate(rows[..i])
    {
      var row := rows[i];
      if row.muni !in m {
        m := m[row.muni := Tally(0, 0, 0)];
      }
      m := m[row.muni := Put(m[row.muni], row.estado, row.total)];
      assert rows[..i + 1][..i] == rows[..i];
      i := i + 1;
    }
    assert rows[..i] == rows;
  }

  /** The total of the last row for (`muni`, `estado`), or 0 when there is none. */
  function LastTotal(rows: seq<StatRow>, muni: string, estado: string): int
  {
    if rows == [] then 0
    else if rows[|rows| - 1].muni == muni && rows[|rows| - 1].estado == estado then rows[|rows| - 1].total
    else LastTotal(rows[..|rows| - 1], muni, estado)
  }

  /**
   * The dict has a key for exactly the municipalities that appear in the
   * rows, and each of its three counters is the total of the last row for
   * that municipality and status, 0 when there is none.
   */
  lemma {:induction false} AggregateMeaning(rows: seq<StatRow>)
    ensures forall name :: name in Aggregate(rows) <==> exists i :: 0 <= i < |rows| && rows[i].muni == name
    ensures forall name, e :: name in Aggregate(rows) && KnownEstado(e) ==>
      Field(Aggregate(rows)[name], e) == LastTotal(rows, name, e)
  {
    if rows != [] {
      var pre := rows[..|rows| - 1];
      AggregateMeaning(pre);
      var last := rows[|rows| - 1];
      assert rows == pre + [last];
      forall name, e | name in Aggregate(rows) && KnownEstado(e)
        ensures Field(Aggregate(rows)[name], e) == LastTotal(rows, name, e)
      {
        if name == last.muni {
          var base := if name in Aggregate(pre) then Aggregate(pre)[name] else Tally(0, 0, 0);
          assert Aggregate(rows)[name] == Put(base, last.estado, last.total);
          if name !in Aggregate(pre) {
            assert forall i :: 0 <= i < |pre| ==> pre[i].muni != name;
            LastTotalAbsent(pre, name, e);
          }
        }
      }
      forall name ensures name in Aggregate(rows) <==> exists i :: 0 <= i < |rows| && rows[i].muni == name {
        if exists i :: 0 <= i < |pre| && pre[i].muni == name {
          var i :| 0 <= i < |pre| && pre[i].muni == name;
          assert rows[i].muni == name;
        }
        if name != rows[|rows| - 1].muni && exists i :: 0 <= i < |rows| && rows[i].muni == name {
          var i :| 0 <= i < |rows| && rows[i].muni == name;
          assert pre[i].muni == name;
        }
      }
    }
  }

  /** A municipality without rows has every total 0. */
  lemma {:induction false} LastTotalAbsent(rows: seq<StatRow>, muni: string, estado: string)
    requires forall i :: 0 <= i < |rows| ==> rows[i].muni != muni
    ensures LastTotal(rows, muni, estado) == 0
  {
    if rows != [] {
      var pre := rows[..|rows| - 1];
      assert forall i :: 0 <= i < |pre| ==> pre[i] == rows[i];
      LastTotalAbsent(pre, muni, estado);
    }
  }

  /** With one row per (municipality, status) pair, as GROUP BY yields, every row's total lands in its counter. */
  lemma {:induction false} LastTotalOfUniqueRow(rows: seq<StatRow>, k: nat)
    requires k < |rows|
    requires forall i, j :: 0 <= i < j < |rows| ==> (rows[i].muni, rows[i].estado) != (rows[j].muni, rows[j].estado)
    ensures LastTotal(rows, rows[k].muni, rows[k].estado) == rows[k].total
  {
    var n := |rows| - 1;
    if k < n {
      var pre := rows[..n];
      assert (rows[k].muni, rows[k].estado) != (rows[n].muni, rows[n].estado);
      assert pre[k] == rows[k];
      LastTotalOfUniqueRow(pre, k);
    }
  }

  lemma GroupedRowsLandInTheirCounter(rows: seq<StatRow>, k: nat)
    requires k < |rows| && KnownEstado(rows[k].estado)
    requires forall i, j :: 0 <= i < j < |rows| ==> (rows[i].muni, rows[i].estado) != (rows[j].muni, rows[j].estado)
    ensures rows[k].muni in Aggregate(rows)
    ensures Field(Aggregate(rows)[rows[k].muni], rows[k].estado) == rows[k].total
  {
    AggregateMeaning(rows);
    LastTotalOfUniqueRow(rows, k);
  }
}
