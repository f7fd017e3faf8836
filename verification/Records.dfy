/** The daily observation and its canonical, date-sorted order. */
module Records {
  import opened Sorting

  /** One row of the daily series: the calendar date as a day number, the
      balance in millions, the month-to-date active users (MAU) and the users
      active that day (DAU). */
  datatype Observation = Observation(date: int, balance: real, mau: nat, dau: nat)

  predicate ByDate(a: Observation, b: Observation)
  {
    a.date <= b.date
  }

  lemma ByDateIsTotalPreorder()
    ensures TotalPreorder(ByDate)
  {
  }

  ghost predicate Chronological(obs: seq<Observation>)
  {
    forall i, j :: 0 <= i < j < |obs| ==> obs[i].date <= obs[j].date
  }

  /** `sort_values('fecha')`: the same rows, in ascending date order. */
  function SortByDate(raw: seq<Observation>): (obs: seq<Observation>)
    ensures |obs| == |raw|
    ensures multiset(obs) == multiset(raw)
    ensures Chronological(obs)
  {
    ByDateIsTotalPreorder();
    SortBy(raw, ByDate)
  }
}
