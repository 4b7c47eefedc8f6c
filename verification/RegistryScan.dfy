/**
 The paged scan for config-owned rows. Pages are addressed by position and read one
 transaction each, with other writers committing in between: page `k` shows the rows ranked
 `k * PAGE` to `(k + 1) * PAGE` in the table as it stands when that page is read.
 */
module RegistryScan {
  import opened Wrappers
  import opened KeyOrder
  import opened RegistryRows
  import opened RegistryTable

  const PAGE: nat := 10_000
  const U32_MAX: nat := 0xFFFF_FFFF

  function Min(a: nat, b: nat): nat {
    if a <= b then a else b
  }

  function SaturatingAdd(a: nat, b: nat): nat {
    Min(a + b, U32_MAX)
  }

  /** Keys in the half-open range the scan asks for. */
  predicate Scannable(key: string) {
    Less(key, ['\U{10FFFF}'])
  }

  function Scanned(t: Table): set<string> {
    set key | key in t && Scannable(key)
  }

  function ScannedKeys(t: Table): seq<string> {
    Sorted(Scanned(t))
  }

  function GetRange(t: Table, limit: nat, offset: nat): seq<(string, Bytes)> {
    var keys := ScannedKeys(t);
    var first := Min(offset, |keys|);
    var page := keys[first..Min(offset + limit, |keys|)];
    SortedKeys(Scanned(t));
    seq(|page|, i requires 0 <= i < |page| => assert page[i] in keys; (page[i], t[page[i]]))
  }

  /** What the scan keeps of one page. */
  function OwnedInPage(page: seq<(string, Bytes)>): seq<string> {
    if page == [] then []
    else OwnedInPage(page[..|page| - 1])
         + if RowIsConfigOwned(Some(page[|page| - 1].1)) then [page[|page| - 1].0] else []
  }

  // ---- One page --------------------------------------------------------------------------

  function OwnedAmong(t: Table, keys: seq<string>): seq<string> {
    if keys == [] then []
    else OwnedAmong(t, keys[..|keys| - 1])
         + if ConfigOwned(t, keys[|keys| - 1]) then [keys[|keys| - 1]] else []
  }

  ghost predicate Distinct(keys: seq<string>) {
    forall i, j :: 0 <= i < j < |keys| ==> keys[i] != keys[j]
  }

  lemma {:induction false} OwnedAmongMembers(t: Table, keys: seq<string>)
    ensures forall a :: a in OwnedAmong(t, keys) <==> a in keys && ConfigOwned(t, a)
    ensures Distinct(keys) ==> Distinct(OwnedAmong(t, keys))
  {
    if keys != [] {
      var n := |keys| - 1;
      OwnedAmongMembers(t, keys[..n]);
      assert keys == keys[..n] + [keys[n]];
    }
  }

  lemma {:induction false} OwnedInPageMeaning(t: Table, page: seq<(string, Bytes)>, keys: seq<string>)
    requires |page| == |keys|
    requires forall i :: 0 <= i < |keys| ==> page[i].0 == keys[i] && Get(t, keys[i]) == Some(page[i].1)
    ensures OwnedInPage(page) == OwnedAmong(t, keys)
  {
    if page != [] {
      var n := |page| - 1;
      OwnedInPageMeaning(t, page[..n], keys[..n]);
      assert Get(t, keys[n]) == Some(page[n].1);
    }
  }

  /** The keys a page covers. */
  function Covered(t: Table, offset: nat): seq<string> {
    var keys := ScannedKeys(t);
    keys[Min(offset, |keys|)..Min(offset + PAGE, |keys|)]
  }

  lemma PageIsCovered(t: Table, offset: nat)
    ensures |GetRange(t, PAGE, offset)| == |Covered(t, offset)|
    ensures OwnedInPage(GetRange(t, PAGE, offset)) == OwnedAmong(t, Covered(t, offset))
  {
    var page, covered := GetRange(t, PAGE, offset), Covered(t, offset);
    SortedKeys(Scanned(t));
    forall i | 0 <= i < |covered|
      ensures page[i].0 == covered[i] && Get(t, covered[i]) == Some(page[i].1)
    {
      assert covered[i] in ScannedKeys(t);
    }
    OwnedInPageMeaning(t, page, covered);
  }

  // ---- Ranks -----------------------------------------------------------------------------

  /** How many scanned keys come before `alias`. */
  function Rank(t: Table, alias: string): nat {
    |set key | key in Scanned(t) && Less(key, alias)|
  }

  /** `alias` stands on page `k` of the table. */
  predicate OnPage(t: Table, k: nat, alias: string) {
    alias in t && Scannable(alias) && k * PAGE <= Rank(t, alias) < (k + 1) * PAGE
  }

  lemma {:induction false} PrefixSize(keys: seq<string>)
    requires Distinct(keys)
    ensures |set k | k in keys| == |keys|
  {
    if keys != [] {
      var n := |keys| - 1;
      PrefixSize(keys[..n]);
      assert (set k | k in keys) == (set k | k in keys[..n]) + {keys[n]};
      assert keys[n] !in keys[..n];
    }
  }

  lemma AscendingIsDistinct(keys: seq<string>)
    requires Ascending(keys)
    ensures Distinct(keys)
  {
    forall i, j | 0 <= i < j < |keys|
      ensures keys[i] != keys[j]
    {
      LessTrichotomy(keys[i], keys[j]);
    }
  }

  /** The rank of a scanned key is its position in the scan. */
  lemma RankIsIndex(t: Table, p: nat)
    requires p < |ScannedKeys(t)|
    ensures Rank(t, ScannedKeys(t)[p]) == p
  {
    var keys := ScannedKeys(t);
    SortedKeys(Scanned(t));
    AscendingIsDistinct(keys[..p]);
    PrefixSize(keys[..p]);
    forall k
      ensures k in keys[..p] <==> k in Scanned(t) && Less(k, keys[p])
    {
      if k in Scanned(t) && Less(k, keys[p]) {
        var i :| 0 <= i < |keys| && keys[i] == k;
        LessTrichotomy(k, keys[p]);
        assert i < p;
        assert keys[..p][i] == k;
      }
    }
    assert (set key | key in Scanned(t) && Less(key, keys[p])) == (set k | k in keys[..p]);
  }

  lemma RankBound(t: Table, alias: string)
    requires alias in t && Scannable(alias)
    ensures Rank(t, alias) < |ScannedKeys(t)| && ScannedKeys(t)[Rank(t, alias)] == alias
  {
    SortedKeys(Scanned(t));
    assert alias in ScannedKeys(t);
    var p :| 0 <= p < |ScannedKeys(t)| && ScannedKeys(t)[p] == alias;
    RankIsIndex(t, p);
  }

  lemma CoveredIsOnPage(t: Table, k: nat, i: nat)
    requires i < |Covered(t, k * PAGE)|
    ensures OnPage(t, k, Covered(t, k * PAGE)[i])
  {
    SortedKeys(Scanned(t));
    var keys := ScannedKeys(t);
    assert Covered(t, k * PAGE)[i] == keys[k * PAGE + i] && keys[k * PAGE + i] in keys;
    RankIsIndex(t, k * PAGE + i);
  }

  lemma CoveredRanks(t: Table, k: nat, alias: string)
    ensures alias in Covered(t, k * PAGE) <==> OnPage(t, k, alias)
  {
    var covered := Covered(t, k * PAGE);
    if alias in covered {
      var i :| 0 <= i < |covered| && covered[i] == alias;
      CoveredIsOnPage(t, k, i);
    }
    if OnPage(t, k, alias) {
      RankBound(t, alias);
      assert covered[Rank(t, alias) - k * PAGE] == alias;
    }
  }

  /** A page reports exactly the config-owned rows standing on it. */
  lemma PageReports(t: Table, k: nat, alias: string)
    ensures alias in OwnedInPage(GetRange(t, PAGE, k * PAGE)) <==> ConfigOwned(t, alias) && OnPage(t, k, alias)
  {
    PageIsCovered(t, k * PAGE);
    OwnedAmongMembers(t, Covered(t, k * PAGE));
    CoveredRanks(t, k, alias);
  }

  lemma RankGrows(t: Table, u: Table, alias: string)
    requires t.Keys <= u.Keys
    ensures Rank(t, alias) <= Rank(u, alias)
  {
    SubsetSize((set key | key in Scanned(t) && Less(key, alias)), (set key | key in Scanned(u) && Less(key, alias)));
  }

  lemma SubsetSize<T>(a: set<T>, b: set<T>)
    requires a <= b
    ensures |a| <= |b|
  {
    assert b == a + (b - a);
  }

  // ---- Schedules -------------------------------------------------------------------------

  /** The foreign transactions that commit before the host's n-th one. */
  type Schedule = nat -> seq<Step>

  /** What other writers commit before the host's transactions `c` to `c + n - 1`. */
  function Others(others: Schedule, c: nat, n: nat): seq<Step> {
    if n == 0 then [] else Others(others, c, n - 1) + others(c + n - 1)
  }

  /** The table page `k` is read from, in a scan of `t` that starts with transaction `c`. */
  function PageTable(t: Table, others: Schedule, c: nat, k: nat): Table {
    Run(t, Others(others, c, k + 1))
  }

  lemma PageTableNext(t: Table, others: Schedule, c: nat, k: nat)
    ensures PageTable(t, others, c, k) == Run(Run(t, Others(others, c, k)), others(c + k))
  {
    RunConcat(t, Others(others, c, k), others(c + k));
  }

  function Concat(pages: seq<seq<string>>): seq<string> {
    if pages == [] then [] else Concat(pages[..|pages| - 1]) + pages[|pages| - 1]
  }

  function FirstPages(page: nat -> seq<string>, n: nat): (pages: seq<seq<string>>)
    ensures |pages| == n && forall k :: 0 <= k < n ==> pages[k] == page(k)
  {
    seq(n, k requires 0 <= k < n => page(k))
  }

  lemma FirstPagesNext(page: nat -> seq<string>, n: nat)
    ensures Concat(FirstPages(page, n + 1)) == Concat(FirstPages(page, n)) + page(n)
  {
    assert FirstPages(page, n + 1)[..n] == FirstPages(page, n);
  }

  /** What a scan of `n` pages returns. */
  function ScanResult(t: Table, others: Schedule, c: nat, n: nat): seq<string> {
    Concat(FirstPages(PageResults(t, others, c), n))
  }

  function PageResults(t: Table, others: Schedule, c: nat): nat -> seq<string> {
    (k: nat) => PageResult(t, others, c, k)
  }

  lemma ScanNext(t: Table, others: Schedule, c: nat, n: nat)
    ensures ScanResult(t, others, c, n + 1) == ScanResult(t, others, c, n) + PageResult(t, others, c, n)
  {
    FirstPagesNext(PageResults(t, others, c), n);
  }

  function PageResult(t: Table, others: Schedule, c: nat, k: nat): seq<string> {
    OwnedInPage(GetRange(PageTable(t, others, c, k), PAGE, k * PAGE))
  }

  predicate FullPage(t: Table, k: nat) {
    (k + 1) * PAGE <= |ScannedKeys(t)|
  }

  /** The scan takes exactly `n` pages: all full but the last. */
  ghost predicate Complete(t: Table, others: Schedule, c: nat, n: nat) {
    n > 0 && !FullPage(PageTable(t, others, c, n - 1), n - 1) && FullUpTo(t, others, c, n - 1)
  }

  /** The first `n` pages are full. */
  ghost predicate FullUpTo(t: Table, others: Schedule, c: nat, n: nat) {
    n == 0 || (FullPage(PageTable(t, others, c, n - 1), n - 1) && FullUpTo(t, others, c, n - 1))
  }

  lemma {:induction false} FullUpToAt(t: Table, others: Schedule, c: nat, n: nat, k: nat)
    requires FullUpTo(t, others, c, n) && k < n
    ensures FullPage(PageTable(t, others, c, k), k)
  {
    if k < n - 1 {
      FullUpToAt(t, others, c, n - 1, k);
    }
  }

  lemma PageSize(t: Table, k: nat)
    ensures |GetRange(t, PAGE, k * PAGE)| <= PAGE
    ensures |GetRange(t, PAGE, k * PAGE)| == PAGE <==> FullPage(t, k)
  {
    PageIsCovered(t, k * PAGE);
  }

  /** A table within `aliases` fills a page only if there are that many of them. */
  lemma FullPageBound(t: Table, aliases: set<string>, k: nat)
    requires t.Keys <= aliases && FullPage(t, k)
    ensures (k + 1) * PAGE <= |aliases|
  {
    SortedKeys(Scanned(t));
    SubsetSize(Scanned(t), aliases);
  }

  /** A schedule ends the scan after one number of pages only. */
  lemma CompleteIsUnique(t: Table, others: Schedule, c: nat, m: nat, n: nat)
    requires Complete(t, others, c, m) && Complete(t, others, c, n)
    ensures m == n
  {
    NotShorter(t, others, c, m, n);
    NotShorter(t, others, c, n, m);
  }

  lemma NotShorter(t: Table, others: Schedule, c: nat, m: nat, n: nat)
    requires Complete(t, others, c, m) && Complete(t, others, c, n)
    ensures m >= n
  {
    if m < n {
      FullUpToAt(t, others, c, n - 1, m - 1);
    }
  }

  /** One turn of the scan: page `k`, read from `u`. */
  lemma ScanTurn(t: Table, others: Schedule, c: nat, k: nat, u: Table, owned: seq<string>, page: seq<(string, Bytes)>,
                 aliases: set<string>)
    requires u == PageTable(t, others, c, k) && owned == ScanResult(t, others, c, k)
    requires page == GetRange(u, PAGE, k * PAGE) && u.Keys <= aliases && FullUpTo(t, others, c, k)
    ensures owned + OwnedInPage(page) == ScanResult(t, others, c, k + 1)
    ensures |page| <= PAGE
    ensures if |page| == PAGE then FullUpTo(t, others, c, k + 1) && (k + 1) * PAGE <= |aliases|
      else Complete(t, others, c, k + 1)
  {
    ScanNext(t, others, c, k);
    PageSize(u, k);
    if FullPage(u, k) {
      FullPageBound(u, aliases, k);
    }
  }

  lemma ScanBegin(t: Table, others: Schedule, c: nat, before: seq<Step>)
    ensures Run(t, Others(others, c, 0)) == t && before + Others(others, c, 0) == before
    ensures ScanResult(t, others, c, 0) == []
  {
  }

  /** What a transaction finds when `n` came before it since `c`. */
  lemma OthersNext(t: Table, others: Schedule, c: nat, n: nat, u: Table, steps: seq<Step>, u': Table)
    requires u == Run(t, Others(others, c, n)) && steps == others(c + n) && u' == Run(u, steps)
    ensures u' == Run(t, Others(others, c, n + 1))
  {
    RunConcat(t, Others(others, c, n), steps);
  }

  lemma OthersLog(before: seq<Step>, others: Schedule, c: nat, n: nat, log: seq<Step>, steps: seq<Step>,
                  log': seq<Step>)
    requires log == before + Others(others, c, n) && steps == others(c + n) && log' == log + steps
    ensures log' == before + Others(others, c, n + 1)
  {
    Reassociate(before, Others(others, c, n), steps);
  }

  lemma Reassociate(a: seq<Step>, b: seq<Step>, c: seq<Step>)
    ensures a + b + c == a + (b + c)
  {
  }

  /** `alias` stands on one of the pages, when that page is read. */
  ghost predicate Seen(t: Table, others: Schedule, c: nat, n: nat, alias: string) {
    exists k :: 0 <= k < n && OnPage(PageTable(t, others, c, k), k, alias)
  }

  /** Config-owned and on the page when page `k` is read. */
  ghost predicate ReportedBy(t: Table, others: Schedule, c: nat, k: nat, alias: string) {
    var u := PageTable(t, others, c, k);
    ConfigOwned(u, alias) && OnPage(u, k, alias)
  }

  lemma {:induction false} InConcat(pages: seq<seq<string>>, x: string)
    ensures x in Concat(pages) <==> exists k :: 0 <= k < |pages| && x in pages[k]
  {
    if pages != [] {
      InConcat(pages[..|pages| - 1], x);
    }
  }

  /** The scan returns exactly the aliases that were config-owned and on a page when that page
      was read. */
  lemma ScanReports(t: Table, others: Schedule, c: nat, n: nat, alias: string)
    ensures alias in ScanResult(t, others, c, n) <==> exists k :: 0 <= k < n && ReportedBy(t, others, c, k, alias)
  {
    var pages := FirstPages(PageResults(t, others, c), n);
    InConcat(pages, alias);
    forall k | 0 <= k < n
      ensures alias in pages[k] <==> ReportedBy(t, others, c, k, alias)
    {
      PageReports(PageTable(t, others, c, k), k, alias);
    }
  }

  // ---- When a scan sees a row --------------------------------------------------------------

  ghost predicate Present(t: Table, others: Schedule, c: nat, n: nat, alias: string) {
    Scannable(alias) && forall k :: 0 <= k < n ==> alias in PageTable(t, others, c, k)
  }

  ghost function RankAt(t: Table, others: Schedule, c: nat, k: nat, alias: string): nat {
    Rank(PageTable(t, others, c, k), alias)
  }

  /** Between reading pages `k - 1` and `k`, deletions move the row from behind the boundary
      of the two pages to before it. */
  ghost predicate Slides(t: Table, others: Schedule, c: nat, k: nat, alias: string) {
    k > 0 && RankAt(t, others, c, k, alias) < k * PAGE <= RankAt(t, others, c, k - 1, alias)
  }

  /** The first page whose end the row does not lie behind. */
  lemma {:induction false} FirstReached(t: Table, others: Schedule, c: nat, n: nat, alias: string) returns (k: nat)
    requires Complete(t, others, c, n) && Present(t, others, c, n, alias)
    ensures k < n && RankAt(t, others, c, k, alias) < (k + 1) * PAGE
    ensures k > 0 ==> k * PAGE <= RankAt(t, others, c, k - 1, alias)
  {
    k := 0;
    RankBound(PageTable(t, others, c, n - 1), alias);
    while RankAt(t, others, c, k, alias) >= (k + 1) * PAGE
      invariant k < n && (k > 0 ==> k * PAGE <= RankAt(t, others, c, k - 1, alias))
      decreases n - k
    {
      k := k + 1;
    }
  }

  /** A row that is there throughout and yet on no page slid past a page boundary. */
  lemma MissNeedsSlide(t: Table, others: Schedule, c: nat, n: nat, alias: string) returns (k: nat)
    requires Complete(t, others, c, n) && Present(t, others, c, n, alias) && !Seen(t, others, c, n, alias)
    ensures k < n && Slides(t, others, c, k, alias)
  {
    k := FirstReached(t, others, c, n, alias);
    assert !OnPage(PageTable(t, others, c, k), k, alias);
  }

  /** Rows may be added between pages, but none leaves. */
  ghost predicate Growing(t: Table, others: Schedule, c: nat, n: nat) {
    forall k :: 0 < k < n ==> PageTable(t, others, c, k - 1).Keys <= PageTable(t, others, c, k).Keys
  }

  /** If no row leaves between pages, every row that is there throughout is on some page. */
  lemma GrowingScanSees(t: Table, others: Schedule, c: nat, n: nat, alias: string)
    requires Complete(t, others, c, n) && Present(t, others, c, n, alias) && Growing(t, others, c, n)
    ensures Seen(t, others, c, n, alias)
  {
    if !Seen(t, others, c, n, alias) {
      var k := MissNeedsSlide(t, others, c, n, alias);
      RankGrows(PageTable(t, others, c, k - 1), PageTable(t, others, c, k), alias);
    }
  }

  /** Rows may leave between pages, but none is added. */
  ghost predicate Shrinking(t: Table, others: Schedule, c: nat, n: nat) {
    forall k :: 0 < k < n ==> PageTable(t, others, c, k).Keys <= PageTable(t, others, c, k - 1).Keys
  }

  lemma {:induction false} ShrinkingRanks(t: Table, others: Schedule, c: nat, n: nat, j: nat, k: nat, alias: string)
    requires Shrinking(t, others, c, n) && j <= k < n
    ensures RankAt(t, others, c, k, alias) <= RankAt(t, others, c, j, alias)
  {
    if j < k {
      ShrinkingRanks(t, others, c, n, j, k - 1, alias);
      RankGrows(PageTable(t, others, c, k), PageTable(t, others, c, k - 1), alias);
    }
  }

  /** If no row is added between pages, a row that is there throughout is missed exactly when
      it slides past a page boundary. */
  lemma ShrinkingScanMissesExactly(t: Table, others: Schedule, c: nat, n: nat, alias: string)
    requires Complete(t, others, c, n) && Present(t, others, c, n, alias) && Shrinking(t, others, c, n)
    ensures !Seen(t, others, c, n, alias) <==> exists k :: 0 <= k < n && Slides(t, others, c, k, alias)
  {
    if !Seen(t, others, c, n, alias) {
      var k := MissNeedsSlide(t, others, c, n, alias);
    } else {
      var j :| 0 <= j < n && OnPage(PageTable(t, others, c, j), j, alias);
      forall k | 0 <= k < n
        ensures !Slides(t, others, c, k, alias)
      {
        SeenDoesNotSlide(t, others, c, n, j, k, alias);
      }
    }
  }

  lemma SeenDoesNotSlide(t: Table, others: Schedule, c: nat, n: nat, j: nat, k: nat, alias: string)
    requires Shrinking(t, others, c, n) && j < n && k < n
    requires j * PAGE <= RankAt(t, others, c, j, alias) < (j + 1) * PAGE
    ensures !Slides(t, others, c, k, alias)
  {
    if k > j {
      ShrinkingRanks(t, others, c, n, j, k - 1, alias);
      assert k * PAGE >= (j + 1) * PAGE;
    } else {
      ShrinkingRanks(t, others, c, n, k, j, alias);
      assert k * PAGE <= j * PAGE;
    }
  }

  // ---- Schedules without deletions ---------------------------------------------------------

  ghost predicate NoDeletions(steps: seq<Step>) {
    forall s <- steps :: s.Foreign() && !Deletes(s)
  }

  predicate Deletes(s: Step) {
    (s.GuestWrite? && s.replacement.None?) || s.GuestCompareAndDelete?
  }

  lemma {:induction false} BatchKeepsKeys(t: Table, entries: seq<(string, Bytes)>)
    requires BatchUpdate(t, entries).Some?
    ensures t.Keys <= BatchUpdate(t, entries).value.Keys
    decreases entries
  {
    if entries != [] {
      BatchKeepsKeys(t[entries[0].0 := entries[0].1], entries[1..]);
    }
  }

  lemma {:induction false} RunKeepsKeys(t: Table, steps: seq<Step>)
    requires NoDeletions(steps)
    ensures t.Keys <= Run(t, steps).Keys
  {
    if steps != [] {
      var n := |steps| - 1;
      assert forall s <- steps[..n] :: s in steps;
      RunKeepsKeys(t, steps[..n]);
      var u, s := Run(t, steps[..n]), steps[n];
      assert s in steps;
      if s.GuestBatch? && BatchUpdate(u, s.entries).Some? {
        BatchKeepsKeys(u, s.entries);
      }
    }
  }

  /** Uploads and guest writes may come between the pages: only a deletion can hide a row. */
  lemma NoDeletionNoRowLeaves(t: Table, others: Schedule, c: nat, n: nat)
    requires forall m :: c < m < c + n ==> NoDeletions(others(m))
    ensures Growing(t, others, c, n)
  {
    forall k | 0 < k < n
      ensures PageTable(t, others, c, k - 1).Keys <= PageTable(t, others, c, k).Keys
    {
      PageTableNext(t, others, c, k);
      RunKeepsKeys(PageTable(t, others, c, k - 1), others(c + k));
    }
  }

  // ---- Each alias once ---------------------------------------------------------------------

  /** No row comes or goes between pages: all of them show the keys of `base`. */
  ghost predicate Stable(t: Table, others: Schedule, c: nat, n: nat, base: Table) {
    forall k :: 0 <= k < n ==> PageTable(t, others, c, k).Keys == base.Keys
  }

  ghost predicate Ranked(base: Table, keys: seq<string>, low: nat, high: nat) {
    Distinct(keys) && forall a <- keys :: low <= Rank(base, a) < high
  }

  lemma {:induction false} RankedConcat(base: Table, pages: seq<seq<string>>)
    requires forall k :: 0 <= k < |pages| ==> Ranked(base, pages[k], k * PAGE, (k + 1) * PAGE)
    ensures Ranked(base, Concat(pages), 0, |pages| * PAGE)
  {
    if pages != [] {
      var n := |pages| - 1;
      RankedConcat(base, pages[..n]);
      assert Ranked(base, pages[n], n * PAGE, (n + 1) * PAGE);
      DistinctConcat(Concat(pages[..n]), pages[n]);
    }
  }

  /** If no row comes or goes between pages, no alias is reported twice. */
  lemma StableScanReportsOnce(t: Table, others: Schedule, c: nat, n: nat, base: Table)
    requires Stable(t, others, c, n, base)
    ensures Distinct(ScanResult(t, others, c, n))
  {
    var pages := FirstPages(PageResults(t, others, c), n);
    forall k | 0 <= k < n
      ensures Ranked(base, pages[k], k * PAGE, (k + 1) * PAGE)
    {
      PageReportsOnce(PageTable(t, others, c, k), base, k, pages[k]);
    }
    RankedConcat(base, pages);
  }

  lemma PageReportsOnce(u: Table, base: Table, k: nat, page: seq<string>)
    requires u.Keys == base.Keys && page == OwnedInPage(GetRange(u, PAGE, k * PAGE))
    ensures Ranked(base, page, k * PAGE, (k + 1) * PAGE)
  {
    SortedKeys(Scanned(u));
    AscendingIsDistinct(ScannedKeys(u));
    PageIsCovered(u, k * PAGE);
    OwnedAmongMembers(u, Covered(u, k * PAGE));
    assert Scanned(u) == Scanned(base);
    forall a | a in OwnedAmong(u, Covered(u, k * PAGE))
      ensures k * PAGE <= Rank(base, a) < (k + 1) * PAGE
    {
      CoveredRanks(u, k, a);
    }
  }

  lemma DistinctConcat(a: seq<string>, b: seq<string>)
    requires Distinct(a) && Distinct(b) && forall x <- a :: x !in b
    ensures Distinct(a + b)
  {
    forall i, j | 0 <= i < j < |a + b|
      ensures (a + b)[i] != (a + b)[j]
    {
      if i < |a| <= j {
        assert a[i] in a && b[j - |a|] in b;
      }
    }
  }
}
