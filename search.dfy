/** `q_search`: a short digit string is a primary-key lookup; anything else is a
    ranked full-text search whose rank is computed by the database and is therefore
    a parameter here. */
module Search {
  import opened Models
  import opened Seqs
  import Decimal

  /** The relevance the database assigns to a task for a query. */
  type Rank = (Task, string) -> int

  /** The query takes the primary-key branch: digits only, at most five of them. */
  predicate IsIdQuery(q: string)
  {
    Decimal.IsDigitString(q) && |q| <= 5
  }

  /** `order_by('-rank')`: higher rank first. */
  function ByRankDesc(rank: Rank, q: string): (Task, Task) -> bool
  {
    (a: Task, b: Task) => rank(a, q) >= rank(b, q)
  }

  function ById(tasks: seq<Task>, id: TaskId): seq<Task>
  {
    Filter(tasks, (t: Task) => t.id == id)
  }

  /** `filter(rank__gt=0).order_by('-rank')`; the headline annotations add columns, not rows. */
  function Ranked(tasks: seq<Task>, q: string, rank: Rank): (r: seq<Task>)
    ensures forall t :: t in r <==> t in tasks && rank(t, q) > 0
  {
    var kept := Filter(tasks, (t: Task) => rank(t, q) > 0);
    var sorted := Sort(kept, ByRankDesc(rank, q));
    assert forall t :: t in sorted <==> t in multiset(sorted);
    assert forall t :: t in kept <==> t in multiset(kept);
    sorted
  }

  /** `q_search(query)` over the table `tasks`. */
  function QSearch(tasks: seq<Task>, q: string, rank: Rank): (r: seq<Task>)
    ensures |r| <= |tasks|
    ensures forall t :: t in r ==> t in tasks
  {
    if IsIdQuery(q) then ById(tasks, Decimal.DigitsValue(q)) else Ranked(tasks, q, rank)
  }

  lemma RankOrderIsTotal(rank: Rank, q: string)
    ensures TotalPreorder(ByRankDesc(rank, q))
  {
  }

  /** The id branch returns exactly the tasks whose id is the number the query spells,
      whatever their title, description or rank; with unique ids that is at most one
      task, and none is an empty result rather than an error. */
  lemma IdQueryLookup(tasks: seq<Task>, q: string, rank: Rank)
    requires IsIdQuery(q)
    ensures forall t :: t in QSearch(tasks, q, rank) <==> t in tasks && t.id == Decimal.DigitsValue(q)
    ensures DistinctBy(tasks, IdOf) ==> |QSearch(tasks, q, rank)| <= 1
    ensures (forall t :: t in tasks ==> t.id != Decimal.DigitsValue(q)) ==> QSearch(tasks, q, rank) == []
  {
    var r := QSearch(tasks, q, rank);
    if DistinctBy(tasks, IdOf) {
      FilterDistinct(tasks, (t: Task) => t.id == Decimal.DigitsValue(q), IdOf);
      AtMostOneWithKey(r, IdOf, Decimal.DigitsValue(q));
    }
    if r != [] {
      assert r[0] in r;
    }
  }

  /** Leading zeros are dropped: "007" looks up the same task as "7". */
  lemma LeadingZeroQuery(tasks: seq<Task>, q: string, rank: Rank)
    requires IsIdQuery(q) && |q| <= 4
    ensures IsIdQuery("0" + q)
    ensures QSearch(tasks, "0" + q, rank) == QSearch(tasks, q, rank)
  {
    var z := "0" + q;
    assert forall i :: 0 <= i < |z| ==> Decimal.IsDigit(z[i]) by {
      forall i | 0 <= i < |z| ensures Decimal.IsDigit(z[i]) {
        if i > 0 {
          assert z[i] == q[i - 1];
        }
      }
    }
    Decimal.LeadingZeroIgnored(q);
  }

  /** Searching for the decimal form of an id below 100000 finds the task with that id. */
  lemma DecimalIdQuery(tasks: seq<Task>, id: TaskId, rank: Rank)
    requires id < 100000
    ensures IsIdQuery(Decimal.DecimalString(id))
    ensures forall t :: t in QSearch(tasks, Decimal.DecimalString(id), rank) <==> t in tasks && t.id == id
  {
    Decimal.DecimalLength(id, 5);
    Decimal.DecimalRoundTrip(id);
    IdQueryLookup(tasks, Decimal.DecimalString(id), rank);
  }

  /** Any other query is ranked: exactly the tasks of positive rank, each as often as
      in the table, highest rank first. */
  lemma RankedQuery(tasks: seq<Task>, q: string, rank: Rank)
    requires !Decimal.IsDigitString(q) || |q| >= 6
    ensures var r := QSearch(tasks, q, rank);
      && (forall t :: multiset(r)[t] == if rank(t, q) > 0 then multiset(tasks)[t] else 0)
      && (forall i :: 0 <= i < |r| ==> rank(r[i], q) > 0)
      && (forall i, j :: 0 <= i < j < |r| ==> rank(r[i], q) >= rank(r[j], q))
  {
    var kept := Filter(tasks, (t: Task) => rank(t, q) > 0);
    var r := QSearch(tasks, q, rank);
    assert r == Sort(kept, ByRankDesc(rank, q));
    RankOrderIsTotal(rank, q);
    SortSorted(kept, ByRankDesc(rank, q));
    forall i | 0 <= i < |r| ensures rank(r[i], q) > 0 {
      assert r[i] in multiset(r);
    }
  }

  /** Both branches return rows of the table, so unique ids stay unique. */
  lemma SearchDistinct(tasks: seq<Task>, q: string, rank: Rank)
    requires DistinctBy(tasks, IdOf)
    ensures DistinctBy(QSearch(tasks, q, rank), IdOf)
    ensures forall t :: t in QSearch(tasks, q, rank) ==> t in tasks
  {
    if IsIdQuery(q) {
      FilterDistinct(tasks, (t: Task) => t.id == Decimal.DigitsValue(q), IdOf);
    } else {
      var kept := Filter(tasks, (t: Task) => rank(t, q) > 0);
      FilterDistinct(tasks, (t: Task) => rank(t, q) > 0, IdOf);
      SortDistinct(kept, ByRankDesc(rank, q), IdOf);
      forall t | t in QSearch(tasks, q, rank) ensures t in tasks {
        assert t in multiset(Sort(kept, ByRankDesc(rank, q)));
      }
    }
  }
}
