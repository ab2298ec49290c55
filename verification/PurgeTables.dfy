/** ListTables paging, and the loop that deletes the tables it is paging over. */
module PurgeTables {
  import opened Common

  datatype TableError = NotFound | Failed

  // ---- Name order ------------------------------------------------------------

  /** Byte-wise order of table names; the empty string, which stands for "no cursor",
      is below every name. */
  predicate Less(a: string, b: string) {
    b != [] && (a == [] || a[0] < b[0] || (a[0] == b[0] && Less(a[1..], b[1..])))
  }

  lemma {:induction false} LessTransitive(a: string, b: string, c: string)
    requires Less(a, b) && Less(b, c)
    ensures Less(a, c)
  {
    if a != [] && a[0] == b[0] && b[0] == c[0] {
      LessTransitive(a[1..], b[1..], c[1..]);
    }
  }

  lemma {:induction false} LessTotal(a: string, b: string)
    ensures Less(a, b) || a == b || Less(b, a)
  {
    if a != [] && b != [] && a[0] == b[0] {
      LessTotal(a[1..], b[1..]);
      assert a == [a[0]] + a[1..] && b == [b[0]] + b[1..];
    }
  }

  /** The order is that of a dictionary: a proper prefix comes first; otherwise the first
      difference decides. */
  lemma {:induction false} LessMeans(a: string, b: string)
    ensures Less(a, b) <==>
            || (|a| < |b| && a == b[..|a|])
            || exists k :: 0 <= k < |a| && k < |b| && a[..k] == b[..k] && a[k] < b[k]
    decreases |a|
  {
    if a == "" {
    } else if b != "" && a[0] == b[0] {
      LessMeans(a[1..], b[1..]);
      Cons(a, b);
    } else if b != "" {
      assert a[..0] == b[..0];
    }
  }

  /** Both sides of LessMeans with the same first character in front. */
  lemma Cons(a: string, b: string)
    requires a != "" && b != "" && a[0] == b[0]
    ensures (|a| < |b| && a == b[..|a|]) <==> (|a[1..]| < |b[1..]| && a[1..] == b[1..][..|a[1..]|])
    ensures (exists k :: 0 <= k < |a| && k < |b| && a[..k] == b[..k] && a[k] < b[k]) <==>
            exists k :: 0 <= k < |a[1..]| && k < |b[1..]| && a[1..][..k] == b[1..][..k] && a[1..][k] < b[1..][k]
  {
    if |a| < |b| {
      assert b[..|a|] == [b[0]] + b[1..][..|a[1..]|] && a == [a[0]] + a[1..];
    }
    if k :| 0 <= k < |a| && k < |b| && a[..k] == b[..k] && a[k] < b[k] {
      assert k > 0;
      assert a[1..][..k - 1] == a[..k][1..] && b[1..][..k - 1] == b[..k][1..];
      assert a[1..][k - 1] < b[1..][k - 1];
    }
    if k :| 0 <= k < |a[1..]| && k < |b[1..]| && a[1..][..k] == b[1..][..k] && a[1..][k] < b[1..][k] {
      assert a[..k + 1] == [a[0]] + a[1..][..k] && b[..k + 1] == [b[0]] + b[1..][..k];
      assert a[k + 1] < b[k + 1];
    }
  }

  // ---- The engine's tables ---------------------------------------------------

  /** One page of table names after a cursor: ascending, at most `limit` of them, and
      none skipped below the last; a next cursor is given exactly when names remain. */
  ghost predicate IsPage(tables: set<string>, start: string, limit: int, page: seq<string>, last: Option<string>) {
    && |page| <= limit
    && (forall i, j | 0 <= i < j < |page| :: Less(page[i], page[j]))
    && (forall n | n in page :: n in tables && Less(start, n))
    && match last
       case None => forall n | n in tables && Less(start, n) :: n in page
       case Some(l) =>
         && page != [] && l == page[|page| - 1]
         && (forall n | n in tables && Less(start, n) && n !in page :: Less(l, n))
         && (exists n :: n in tables && Less(l, n))
  }

  const DEFAULT_LIMIT := 100

  /** The engine's page size: its default when no limit reaches it. */
  function PageSize(limit: Option<int>): int {
    if limit == None || limit.value == 0 then DEFAULT_LIMIT else limit.value
  }

  class TableStore {
    var tables: set<string>
    /** How many calls have failed, a missing table aside. */
    ghost var faults: nat

    constructor (tables: set<string>)
      ensures this.tables == tables && faults == 0
    {
      this.tables := tables;
      faults := 0;
    }

    /** A nil cursor reaches the engine as the empty string, a nil limit as zero. A limit
        the engine refuses is a failure. */
    method ListTables(start: Option<string>, limit: Option<int>)
      returns (err: Option<TableError>, page: seq<string>, last: Option<string>)
      modifies this`faults
      ensures faults == old(faults) + if err == None then 0 else 1
      ensures err == None || err == Some(Failed)
      ensures err == None ==> |page| <= (match limit case None => 100 case Some(l) => if l == 0 then 100 else l)
      ensures err == None ==> PageSize(limit) >= 1
                              && IsPage(tables, if start.Some? then start.value else "", PageSize(limit), page, last)
    {
      page, last := [], None;
      if PageSize(limit) < 1 {
        faults := faults + 1;
        return Some(Failed), [], None;
      }
      if * {
        faults := faults + 1;
        return Some(Failed), [], None;
      }
      var cursor := if start.Some? then start.value else "";
      var rest := set n | n in tables && Less(cursor, n);
      while rest != {} && |page| < PageSize(limit)
        invariant |page| <= PageSize(limit) && faults == old(faults)
        invariant rest <= tables
        invariant forall i, j | 0 <= i < j < |page| :: Less(page[i], page[j])
        invariant forall n | n in page :: n in tables && Less(cursor, n)
        invariant forall n, m | n in page && m in rest :: Less(n, m)
        invariant forall n | n in tables && Less(cursor, n) :: n in page || n in rest
        decreases rest
      {
        var n := Least(rest);
        page, rest := page + [n], rest - {n};
      }
      if rest != {} {
        last := Some(page[|page| - 1]);
        var n :| n in rest;
        assert Less(page[|page| - 1], n);
      }
      return None, page, last;
    }

    method DeleteTable(name: string) returns (err: Option<TableError>)
      modifies this
      ensures faults == old(faults) + if err == Some(Failed) then 1 else 0
      ensures err == None || err == Some(NotFound) || err == Some(Failed)
      ensures tables == if err == None then old(tables) - {name} else old(tables)
      ensures err == Some(NotFound) <==> err != Some(Failed) && name !in old(tables)
    {
      if * {
        faults := faults + 1;
        return Some(Failed);
      }
      if name !in tables {
        return Some(NotFound);
      }
      tables := tables - {name};
      return None;
    }
  }

  method Least(s: set<string>) returns (n: string)
    requires s != {}
    ensures n in s && forall m | m in s :: m == n || Less(n, m)
  {
    n :| n in s;
    var rest := s - {n};
    while rest != {}
      invariant n in s && rest <= s && n !in rest
      invariant forall m | m in s && m !in rest :: m == n || Less(n, m)
      decreases rest
    {
      var m :| m in rest;
      LessTotal(n, m);
      if Less(m, n) {
        forall x | x in s && x !in rest && x != n ensures Less(m, x) {
          LessTransitive(m, n, x);
        }
        n := m;
      }
      rest := rest - {m};
    }
  }

  // ---- purgeTables -----------------------------------------------------------

  /** The inner loop: deletes the named tables; one that is already gone is no error. */
  method DeletePage(c: TableStore, page: seq<string>) returns (err: Option<TableError>)
    modifies c
    ensures c.tables <= old(c.tables)
    ensures err == None ==> c.tables == old(c.tables) - set n | n in page
    ensures err == if c.faults == old(c.faults) then None else Some(Failed)
  {
    for i := 0 to |page|
      invariant c.faults == old(c.faults)
      invariant c.tables == old(c.tables) - set n | n in page[..i]
    {
      err := c.DeleteTable(page[i]);
      if err.Some? && err.value != NotFound {
        return err;
      }
      assert page[..i + 1] == page[..i] + [page[i]];
    }
    assert page[..|page|] == page;
    return None;
  }

  /** Every name in a store is above the cursor; deleting a page moves the cursor up. */
  ghost predicate AllAbove(tables: set<string>, start: Option<string>) {
    forall n | n in tables :: Less(if start.Some? then start.value else "", n)
  }

  lemma PageDeleted(tables: set<string>, start: Option<string>, limit: int, page: seq<string>, last: Option<string>)
    requires AllAbove(tables, start)
    requires IsPage(tables, if start.Some? then start.value else "", limit, page, last)
    ensures var rest := tables - set n | n in page;
            if last == None then rest == {} else AllAbove(rest, last) && |rest| < |tables|
  {
    var rest := tables - set n | n in page;
    if last.Some? {
      assert page[0] in page;
      assert page[0] in tables && page[0] !in rest;
      SubsetSize(rest, tables - {page[0]});
    }
  }

  /** Pages through the tables, deleting every name it is given. The cursor names a
      table that is already gone, which is harmless: every name at or below it is gone
      too. Without a failure no table is left, for any page size. */
  method Purge(c: TableStore, pageSize: nat) returns (err: Option<TableError>)
    requires pageSize >= 1
    requires "" !in c.tables
    modifies c
    ensures c.tables <= old(c.tables)
    ensures err == None ==> c.tables == {}
    ensures err == if c.faults == old(c.faults) then None else Some(Failed)
  {
    var start: Option<string> := None;
    assert AllAbove(c.tables, start);
    hide IsPage, AllAbove, Less;
    while true
      invariant c.tables <= old(c.tables) && c.faults == old(c.faults)
      invariant AllAbove(c.tables, start)
      decreases |c.tables|
    {
      var e, page, last := c.ListTables(start, Some(pageSize));
      if e.Some? {
        return e;
      }
      PageDeleted(c.tables, start, pageSize, page, last);
      e := DeletePage(c, page);
      if e.Some? {
        return e;
      }
      if last == None {
        return None;
      }
      start := last;
    }
  }
}
