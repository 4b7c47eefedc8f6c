/**
 A publication that reports no failure and yet leaves a stale row: an upload deleted between
 two pages of the scan moves the row from behind the page boundary to before it.
 */
module RegistryMiss {
  import opened Wrappers
  import opened KeyOrder
  import opened RegistryRows
  import opened RegistryTable
  import opened RegistryScan
  import opened RegistryPublisher
  import opened RegistryHosts

  /** Deleting a key moves every key behind it one place up. */
  lemma DeletionMovesUp(t: Table, gone: string, alias: string)
    requires gone in t && Scannable(gone) && Less(gone, alias)
    ensures Rank(t - {gone}, alias) == Rank(t, alias) - 1
  {
    var before := set key | key in Scanned(t) && Less(key, alias);
    assert (set key | key in Scanned(t - {gone}) && Less(key, alias)) == before - {gone};
  }

  /** The alias of `n` letters. */
  function Alias(n: nat): string {
    seq(n, _ => 'a')
  }

  function Aliases(n: nat): (all: seq<string>)
    ensures |all| == n && forall k :: 0 <= k < n ==> all[k] == Alias(k)
  {
    seq(n, k requires 0 <= k < n => Alias(k))
  }

  /** One page of uploads and one configured row after them. */
  function FullPageAndOne(): Table {
    map key | key in Aliases(PAGE + 1) :: if |key| == PAGE then Reservation(key) else Encode(Object(map[]))
  }

  /** The first upload is deleted just before the host's second transaction. */
  function DeleteBetweenPages(n: nat): seq<Step> {
    if n == 1 then [GuestWrite("", None)] else []
  }

  lemma {:induction false} AliasOrder(m: nat, n: nat)
    requires m < n
    ensures Less(Alias(m), Alias(n))
  {
    if m > 0 {
      AliasOrder(m - 1, n - 1);
      assert Alias(m)[1..] == Alias(m - 1) && Alias(n)[1..] == Alias(n - 1);
    }
  }

  lemma AliasesAscend(n: nat)
    ensures Ascending(Aliases(n)) && forall key <- Aliases(n) :: Scannable(key)
  {
    forall i, j | 0 <= i < j < n
      ensures Less(Aliases(n)[i], Aliases(n)[j])
    {
      AliasOrder(i, j);
    }
  }

  lemma TableKeys()
    ensures ScannedKeys(FullPageAndOne()) == Aliases(PAGE + 1)
  {
    var t, all := FullPageAndOne(), Aliases(PAGE + 1);
    AliasesAscend(PAGE + 1);
    SortedKeys(Scanned(t));
    assert forall key :: key in all <==> key in Scanned(t);
    AscendingIsUnique(Sorted(Scanned(t)), all);
  }

  lemma TableRows()
    ensures var t := FullPageAndOne();
      && "" in t && !ConfigOwned(t, "") && ConfigOwned(t, Alias(PAGE)) && Rank(t, Alias(PAGE)) == PAGE
      && Less("", Alias(PAGE)) && Scannable("")
  {
    TableKeys();
    assert Aliases(PAGE + 1)[0] == Alias(0) == "" && "" in Aliases(PAGE + 1);
    assert Aliases(PAGE + 1)[PAGE] == Alias(PAGE) && Alias(PAGE) in Aliases(PAGE + 1);
    RankIsIndex(FullPageAndOne(), PAGE);
  }

  /** The two tables the pages are read from. */
  lemma PagesRead()
    ensures var t := FullPageAndOne();
      PageTable(t, DeleteBetweenPages, 0, 0) == t && PageTable(t, DeleteBetweenPages, 0, 1) == t - {""}
  {
    var t := FullPageAndOne();
    TableRows();
    PageTableNext(t, DeleteBetweenPages, 0, 0);
    PageTableNext(t, DeleteBetweenPages, 0, 1);
    assert Others(DeleteBetweenPages, 0, 1) == Others(DeleteBetweenPages, 0, 0) + [];
    OneStep(t, GuestWrite("", None));
  }

  lemma OneStep(t: Table, s: Step)
    ensures Run(t, [s]) == Next(t, s)
  {
    assert [s][..0] == [];
  }

  lemma SizeAfterDeletion()
    ensures |ScannedKeys(FullPageAndOne() - {""})| == PAGE
  {
    var t := FullPageAndOne();
    TableKeys();
    TableRows();
    SortedKeys(Scanned(t));
    SortedKeys(Scanned(t - {""}));
    assert Scanned(t - {""}) == Scanned(t) - {""};
  }

  /** A scan of two pages during which a row slides past the boundary does not see it. */
  lemma TwoPagesMiss(t: Table, others: Schedule, c: nat, pages: nat, u: Table, u': Table, alias: string)
    requires u == PageTable(t, others, c, 0) && u' == PageTable(t, others, c, 1)
    requires FullPage(u, 0) && !FullPage(u', 1) && Complete(t, others, c, pages)
    requires Rank(u', alias) < PAGE <= Rank(u, alias)
    ensures !Seen(t, others, c, pages, alias)
  {
    TwoPages(t, others, c, u, u');
    CompleteIsUnique(t, others, c, pages, 2);
    forall k | 0 <= k < pages
      ensures !OnPage(PageTable(t, others, c, k), k, alias)
    {
    }
  }

  lemma TwoPages(t: Table, others: Schedule, c: nat, u: Table, u': Table)
    requires u == PageTable(t, others, c, 0) && u' == PageTable(t, others, c, 1)
    requires FullPage(u, 0) && !FullPage(u', 1)
    ensures Complete(t, others, c, 2)
  {
    assert FullUpTo(t, others, c, 0);
    assert FullUpTo(t, others, c, 1);
  }

  /** The configured row is on neither page of the scan. */
  lemma RowIsMissed(pages: nat)
    requires Complete(FullPageAndOne(), DeleteBetweenPages, 0, pages)
    ensures !Seen(FullPageAndOne(), DeleteBetweenPages, 0, pages, Alias(PAGE))
  {
    var t := FullPageAndOne();
    PagesRead();
    TableKeys();
    TableRows();
    SizeAfterDeletion();
    DeletionMovesUp(t, "", Alias(PAGE));
    TwoPagesMiss(t, DeleteBetweenPages, 0, pages, t, t - {""}, Alias(PAGE));
  }

  lemma AllScanned(t: Table, all: seq<string>)
    requires forall key :: key in t <==> key in all
    requires forall key <- all :: Scannable(key)
    ensures Scanned(t) == t.Keys && |t.Keys| == |ScannedKeys(t)|
  {
    assert Scanned(t) == t.Keys;
    SortedKeys(Scanned(t));
  }

  lemma ScheduleIsAdmissible(aliases: set<string>)
    requires "" in aliases && |aliases| <= U32_MAX && forall a <- aliases :: Scannable(a)
    ensures Environment(DeleteBetweenPages, aliases, {})
  {
    forall n: nat
      ensures Admissible(DeleteBetweenPages(n), aliases, {})
    {
    }
  }

  /** Publishing the empty manifest on that schedule: no transaction fails, no failure is
      reported, and the stale row is still config-owned. */
  method PublicationLeavesStaleRow() returns (failures: nat, rows: Table)
    ensures failures == 0 && ConfigOwned(rows, Alias(PAGE))
  {
    var t := FullPageAndOne();
    AliasesAscend(PAGE + 1);
    AllScanned(t, Aliases(PAGE + 1));
    TableKeys();
    TableRows();
    ScheduleIsAdmissible(t.Keys);
    var host := new RegistryHost(t, DeleteBetweenPages, n => false, t.Keys, {});
    ghost var scanned, c, pages;
    failures, scanned, c, pages := host.PublishConfiguredBindings([], path => None);
    rows := host.rows;
    RowIsMissed(pages);
  }
}
