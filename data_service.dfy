/**
 * The site counters: one row, id 1, holding the visit and like counts in
 * `integer` columns, which hold 32-bit signed values only.
 */
module SiteCounters {
  import opened Wrappers
  import opened Entities

  /** The id of the one counters row. */
  const SiteRow: int := 1

  /** The largest value of a PostgreSQL `integer` column. */
  const IntegerMax: int := 0x7fff_ffff

  /** The smallest value of a PostgreSQL `integer` column. */
  const IntegerMin: int := -0x8000_0000

  predicate IsInteger(n: int) {
    IntegerMin <= n <= IntegerMax
  }

  /** Which counter an operation works on. */
  datatype Counter = Visits | Likes

  function Read(d: SiteData, c: Counter): int {
    match c
    case Visits => d.visitCount
    case Likes => d.likeCount
  }

  function Write(d: SiteData, c: Counter, n: int): (r: SiteData)
    ensures Read(r, c) == n
    ensures forall other :: other != c ==> Read(r, other) == Read(d, other)
    ensures r.id == d.id
  {
    match c
    case Visits => d.(visitCount := n)
    case Likes => d.(likeCount := n)
  }

  class DataService {
    var rows: map<int, SiteData>

    /** Each row is held under its own id and its counts fit their columns. */
    ghost predicate Valid()
      reads this
    {
      forall k :: k in rows ==> rows[k].id == k && IsInteger(rows[k].visitCount) && IsInteger(rows[k].likeCount)
    }

    constructor (table: map<int, SiteData>)
      requires forall k :: k in table ==> table[k].id == k && IsInteger(table[k].visitCount) && IsInteger(table[k].likeCount)
      ensures rows == table && Valid()
    {
      rows := table;
    }

    /** `getData`: the row with id 1, or null. */
    method GetData() returns (r: Option<SiteData>)
      requires Valid()
      ensures r.Some? <==> SiteRow in rows
      ensures r.Some? ==> r.value == rows[SiteRow] && r.value.id == SiteRow
    {
      if SiteRow in rows {
        r := Some(rows[SiteRow]);
      } else {
        r := None;
      }
    }

    /** `getVisitCount` and `getLikeCount`: the stored count, or null; nothing changes. */
    method GetCount(c: Counter) returns (r: Option<int>)
      requires Valid()
      ensures r.Some? <==> SiteRow in rows
      ensures r.Some? ==> r.value == Read(rows[SiteRow], c) && IsInteger(r.value)
    {
      var data := GetData();
      if data.None? {
        return None;
      }
      r := Some(Read(data.value, c));
    }

    /**
     * `addOneVisitCount` and `addOneLikeCount`: the count goes up by exactly
     * one and the other count stays; the answer is the new count. A count
     * already at the column's maximum makes the save throw and nothing
     * changes.
     */
    method AddOne(c: Counter) returns (r: Outcome<Option<int>>)
      requires Valid()
      modifies this
      ensures Valid()
      ensures SiteRow !in old(rows) ==> r == Returned(None) && rows == old(rows)
      ensures SiteRow in old(rows) && Read(old(rows)[SiteRow], c) == IntegerMax ==> r == Threw && rows == old(rows)
      ensures SiteRow in old(rows) && Read(old(rows)[SiteRow], c) < IntegerMax ==>
        var n := Read(old(rows)[SiteRow], c) + 1;
        && r == Returned(Some(n))
        && rows == old(rows)[SiteRow := Write(old(rows)[SiteRow], c, n)]
    {
      var data := GetData();
      if data.None? {
        return Returned(None);
      }
      var n := Read(data.value, c) + 1;
      if !IsInteger(n) {
        // the column refuses the value and the save rejects
        return Threw;
      }
      rows := rows[SiteRow := Write(data.value, c, n)];
      r := Returned(Some(n));
    }

    /**
     * `resetVisitCount` and `resetLikeCount`: the count becomes 0, the other
     * stays, and the answer is the count read back from the table.
     */
    method Reset(c: Counter) returns (r: Option<int>)
      requires Valid()
      modifies this
      ensures Valid()
      ensures SiteRow !in old(rows) ==> r == None && rows == old(rows)
      ensures SiteRow in old(rows) ==>
        r == Some(0) && rows == old(rows)[SiteRow := Write(old(rows)[SiteRow], c, 0)]
    {
      var data := GetData();
      if data.None? {
        return None;
      }
      rows := rows[SiteRow := Write(data.value, c, 0)];
      var result := GetData();
      if result.None? {
        return None;
      }
      r := Some(Read(result.value, c));
    }
  }
}
