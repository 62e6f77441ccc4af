/**
 * The paging loop of `display_rows`: five rows at a time, either from the top
 * or from the bottom of the record set. The console is replaced by
 * parameters: the direction chosen, and the replies to "see the next 5 rows?"
 * (`true` for "yes"; once the replies run out the answer is taken to be "no").
 * A page is the pair of bounds handed to `df.iloc[lo:hi]`.
 *
 * The end-of-data test is modelled twice. `AsWritten` is `display_rows`'s test
 * `start_loc >= len(df) or len(df) + start_loc <= 0`, tested after the step.
 * From the bottom it stops one page early, so the first rows of the record
 * set are never shown (see `AsWrittenBottomMissesFirstRow`). `Intended` stops
 * once the page just shown has reached the first row, and shows every row
 * (see `IntendedPagesCoverAllRows`).
 */
module Pager {

  datatype Direction = First | Bottom

  datatype StopRule = AsWritten | Intended

  /** `df.iloc[lo:hi]`. */
  datatype Page = Page(lo: int, hi: int)

  const PAGE_SIZE: int := 5

  function InitialLoc(dir: Direction): int
  {
    if dir == First then 0 else -PAGE_SIZE
  }

  function Step(dir: Direction): int
  {
    if dir == First then PAGE_SIZE else -PAGE_SIZE
  }

  /** The slice printed for the current `start_loc`. */
  function PageAt(n: nat, dir: Direction, loc: int): Page
  {
    if dir == First then Page(loc, if loc + PAGE_SIZE < n then loc + PAGE_SIZE else n)
    else Page(if n + loc > 0 then n + loc else 0, n + loc + PAGE_SIZE)
  }

  /**
   * The page for `start_loc`: from the top it starts at `start_loc` and ends
   * five rows on or at the last row, whichever comes first; from the bottom it
   * ends five rows after `len + start_loc` and starts there or at row 0,
   * whichever is later.
   */
  lemma PageAtSlice(n: nat, dir: Direction, loc: int)
    ensures var p := PageAt(n, dir, loc);
      && (dir == First ==> p.lo == loc && p.hi <= n && p.hi - p.lo <= PAGE_SIZE)
      && (dir == First ==> p.hi == loc + PAGE_SIZE || p.hi == n)
      && (dir == First && loc + PAGE_SIZE <= n ==> p.hi - p.lo == PAGE_SIZE)
      && (dir == Bottom ==> p.lo >= 0 && p.hi == n + loc + PAGE_SIZE && p.hi - p.lo <= PAGE_SIZE)
      && (dir == Bottom ==> p.lo == n + loc || p.lo == 0)
      && (dir == Bottom && n + loc >= 0 ==> p.hi - p.lo == PAGE_SIZE)
  {
  }

  /** "You've reached the end of the dataset", tested on the stepped `start_loc`. */
  predicate Stops(rule: StopRule, n: nat, loc: int)
  {
    match rule
    case AsWritten => loc >= n || n + loc <= 0
    case Intended => loc >= n || n + loc + PAGE_SIZE <= 0
  }

  /**
   * What the end test means for the next page: the intended test stops
   * exactly when that page would be empty; the test as written stops, from
   * the bottom, as soon as that page would start at row 0, so it is never
   * printed.
   */
  lemma StopsMeaning(rule: StopRule, n: nat, loc: int)
    ensures rule == Intended ==>
      (Stops(rule, n, loc) <==> PageAt(n, First, loc).lo >= n || PageAt(n, Bottom, loc).hi <= 0)
    ensures rule == AsWritten ==>
      (Stops(rule, n, loc) <==> PageAt(n, First, loc).lo >= n || PageAt(n, Bottom, loc).lo == 0)
  {
  }

  /** The pages shown from `start_loc == loc` on if every reply is "yes". */
  function PagesFrom(n: nat, dir: Direction, rule: StopRule, loc: int): seq<Page>
    decreases if dir == First then n - loc else n + loc + PAGE_SIZE
  {
    var next := loc + Step(dir);
    [PageAt(n, dir, loc)] + (if Stops(rule, n, next) then [] else PagesFrom(n, dir, rule, next))
  }

  function AllPages(n: nat, dir: Direction, rule: StopRule): seq<Page>
  {
    PagesFrom(n, dir, rule, InitialLoc(dir))
  }

  /** The number of "yes" replies before the first other reply. */
  function LeadingYes(replies: seq<bool>): (k: nat)
    ensures k <= |replies|
    ensures forall i :: 0 <= i < k ==> replies[i]
    ensures k < |replies| ==> !replies[k]
    decreases |replies|
  {
    if |replies| == 0 || !replies[0] then 0 else 1 + LeadingYes(replies[1..])
  }

  /**
   * One run of the inner loop of `display_rows`: the pages printed are the
   * first pages of `AllPages`, one for the first prompt and one more for
   * every leading "yes", until the end test fires.
   */
  method Browse(n: nat, dir: Direction, rule: StopRule, replies: seq<bool>) returns (shown: seq<Page>)
    ensures |shown| <= |AllPages(n, dir, rule)|
    ensures shown == AllPages(n, dir, rule)[..|shown|]
    ensures |shown| == if |AllPages(n, dir, rule)| <= LeadingYes(replies) then |AllPages(n, dir, rule)|
                       else LeadingYes(replies) + 1
  {
    var startLoc := InitialLoc(dir);
    ghost var whole := AllPages(n, dir, rule);
    ghost var rest := whole;
    shown := [];
    while true
      invariant rest == PagesFrom(n, dir, rule, startLoc)
      invariant whole == shown + rest
      invariant |shown| <= LeadingYes(replies)
      decreases |rest|
    {
      BrowseStep(n, dir, rule, startLoc, shown, whole);
      shown := shown + [PageAt(n, dir, startLoc)];
      startLoc := startLoc + Step(dir);
      if Stops(rule, n, startLoc) {
        ShownAll(whole, shown, LeadingYes(replies));
        break;
      }
      rest := PagesFrom(n, dir, rule, startLoc);
      var yes := |shown| - 1 < |replies| && replies[|shown| - 1];
      LeadingYesStep(replies, |shown| - 1);
      if !yes {
        BrowseStep(n, dir, rule, startLoc, shown, whole);
        ShownPrefix(whole, shown, rest, LeadingYes(replies));
        break;
      }
    }
  }

  /** One turn of the loop: print the page at `loc`, step, then test for the end. */
  lemma BrowseStep(n: nat, dir: Direction, rule: StopRule, loc: int, shown: seq<Page>, whole: seq<Page>)
    requires whole == shown + PagesFrom(n, dir, rule, loc)
    ensures |PagesFrom(n, dir, rule, loc)| >= 1
    ensures Stops(rule, n, loc + Step(dir)) ==> whole == shown + [PageAt(n, dir, loc)]
    ensures !Stops(rule, n, loc + Step(dir)) ==>
      && whole == (shown + [PageAt(n, dir, loc)]) + PagesFrom(n, dir, rule, loc + Step(dir))
      && |PagesFrom(n, dir, rule, loc + Step(dir))| < |PagesFrom(n, dir, rule, loc)|
  {
    PagesFromUnfold(n, dir, rule, loc);
    AppendOne(shown, PageAt(n, dir, loc), PagesFrom(n, dir, rule, loc + Step(dir)));
  }

  /** The loop ended at the last page, having printed at most one page more than `k`. */
  lemma ShownAll(whole: seq<Page>, shown: seq<Page>, k: nat)
    requires whole == shown && |shown| <= k + 1
    ensures |shown| <= |whole| && shown == whole[..|shown|]
    ensures |shown| == if |whole| <= k then |whole| else k + 1
  {
  }

  /** The loop ended on a reply other than "yes", after exactly `k` of them, with pages left. */
  lemma ShownPrefix(whole: seq<Page>, shown: seq<Page>, rest: seq<Page>, k: nat)
    requires whole == shown + rest && |rest| >= 1 && |shown| == k + 1
    ensures |shown| <= |whole| && shown == whole[..|shown|]
    ensures |shown| == if |whole| <= k then |whole| else k + 1
  {
    assert shown == whole[..|shown|];
  }

  /** Reading reply `k` after `k` leading "yes" replies: a "yes" extends the run, anything else ends it. */
  lemma LeadingYesStep(replies: seq<bool>, k: nat)
    requires k <= LeadingYes(replies)
    ensures (k < |replies| && replies[k]) ==> k + 1 <= LeadingYes(replies)
    ensures !(k < |replies| && replies[k]) ==> k == LeadingYes(replies)
  {
  }

  lemma PagesFromUnfold(n: nat, dir: Direction, rule: StopRule, loc: int)
    ensures Stops(rule, n, loc + Step(dir)) ==> PagesFrom(n, dir, rule, loc) == [PageAt(n, dir, loc)]
    ensures !Stops(rule, n, loc + Step(dir)) ==>
      PagesFrom(n, dir, rule, loc) == [PageAt(n, dir, loc)] + PagesFrom(n, dir, rule, loc + Step(dir))
  {
  }

  lemma AppendOne<T>(front: seq<T>, x: T, back: seq<T>)
    ensures front + ([x] + back) == (front + [x]) + back
    ensures front + [x] + [] == front + [x]
  {
  }

  /** The `start_loc` values the loop can reach. */
  ghost predicate Reachable(n: nat, dir: Direction, loc: int)
  {
    if dir == First then 0 <= loc <= n && (n > 0 ==> loc < n)
    else loc <= -PAGE_SIZE && n + loc + PAGE_SIZE >= 0 && (n > 0 ==> n + loc + PAGE_SIZE > 0)
  }

  /** Pages from a reachable `start_loc` are slices of at most five rows inside `[0, n)`. */
  lemma {:induction false} PagesFromInBounds(n: nat, dir: Direction, rule: StopRule, loc: int)
    requires Reachable(n, dir, loc)
    ensures forall p :: p in PagesFrom(n, dir, rule, loc) ==>
      0 <= p.lo <= p.hi <= n && p.hi - p.lo <= PAGE_SIZE && (n > 0 ==> p.lo < p.hi)
    decreases if dir == First then n - loc else n + loc + PAGE_SIZE
  {
    var next := loc + Step(dir);
    if !Stops(rule, n, next) {
      PagesFromInBounds(n, dir, rule, next);
    }
  }

  /**
   * Every page `display_rows` prints is a slice of at most five rows inside
   * `[0, n)`, under either rule and in either direction; no negative index
   * reaches `iloc`. A page is empty only when the record set is.
   */
  lemma PagesInBounds(n: nat, dir: Direction, rule: StopRule)
    ensures |AllPages(n, dir, rule)| >= 1
    ensures forall p :: p in AllPages(n, dir, rule) ==>
      0 <= p.lo <= p.hi <= n && p.hi - p.lo <= PAGE_SIZE && (n > 0 ==> p.lo < p.hi)
  {
    PagesFromInBounds(n, dir, rule, InitialLoc(dir));
  }

  /** From the top, pages follow each other without gap or overlap up to row `n`. */
  lemma {:induction false} FirstPagesContiguous(n: nat, rule: StopRule, loc: int)
    requires 0 <= loc <= n
    ensures var ps := PagesFrom(n, First, rule, loc);
      && ps[0].lo == loc
      && ps[|ps| - 1].hi == n
      && forall i :: 0 <= i < |ps| - 1 ==> ps[i].hi == ps[i + 1].lo
    decreases n - loc
  {
    var ps := PagesFrom(n, First, rule, loc);
    var p := PageAt(n, First, loc);
    var next := loc + PAGE_SIZE;
    if Stops(rule, n, next) {
      assert ps == [p];
      assert next >= n;
    } else {
      var rest := PagesFrom(n, First, rule, next);
      FirstPagesContiguous(n, rule, next);
      assert ps == [p] + rest;
      assert p.hi == next;
      assert forall i :: 1 <= i < |ps| ==> ps[i] == rest[i - 1];
    }
  }

  /** From the bottom, with the intended rule, pages go up without gap or overlap to row 0. */
  lemma {:induction false} BottomPagesContiguous(n: nat, loc: int)
    requires loc <= -PAGE_SIZE && n + loc + PAGE_SIZE >= 0
    ensures var ps := PagesFrom(n, Bottom, Intended, loc);
      && ps[0].hi == n + loc + PAGE_SIZE
      && ps[|ps| - 1].lo == 0
      && forall i :: 0 <= i < |ps| - 1 ==> ps[i + 1].hi == ps[i].lo
    decreases n + loc + PAGE_SIZE
  {
    var next := loc - PAGE_SIZE;
    if !Stops(Intended, n, next) {
      BottomPagesContiguous(n, next);
    }
  }

  /**
   * With the intended rule, browsing to the end shows all rows: from the top
   * the pages run from row 0 up to row `n`, from the bottom from row `n` down
   * to row 0, each page starting where the previous one ended.
   */
  lemma IntendedPagesCoverAllRows(n: nat, dir: Direction)
    ensures var ps := AllPages(n, dir, Intended);
      && |ps| >= 1
      && (dir == First ==>
            ps[0].lo == 0 && ps[|ps| - 1].hi == n
            && forall i :: 0 <= i < |ps| - 1 ==> ps[i].hi == ps[i + 1].lo)
      && (dir == Bottom ==>
            ps[0].hi == n && ps[|ps| - 1].lo == 0
            && forall i :: 0 <= i < |ps| - 1 ==> ps[i + 1].hi == ps[i].lo)
  {
    if dir == First {
      FirstPagesContiguous(n, Intended, 0);
    } else {
      BottomPagesContiguous(n, -PAGE_SIZE);
    }
  }

  /** From the top, `display_rows`'s test pages exactly as the intended one does. */
  lemma {:induction false} FirstPagesAgree(n: nat, loc: int)
    requires 0 <= loc
    ensures PagesFrom(n, First, AsWritten, loc) == PagesFrom(n, First, Intended, loc)
    decreases n - loc
  {
    var next := loc + PAGE_SIZE;
    if next < n {
      FirstPagesAgree(n, next);
    }
  }

  lemma {:induction false} AsWrittenBottomPagesAboveFirstRow(n: nat, loc: int)
    requires n + loc > 0
    ensures forall p :: p in PagesFrom(n, Bottom, AsWritten, loc) ==> p.lo > 0
    decreases n + loc + PAGE_SIZE
  {
    var next := loc - PAGE_SIZE;
    if !Stops(AsWritten, n, next) {
      AsWrittenBottomPagesAboveFirstRow(n, next);
    }
  }

  /**
   * As written, browsing more than five rows from the bottom never shows the
   * first row, however often the user answers "yes".
   */
  lemma AsWrittenBottomMissesFirstRow(n: nat)
    requires n > PAGE_SIZE
    ensures forall p :: p in AllPages(n, Bottom, AsWritten) ==> p.lo > 0
  {
    AsWrittenBottomPagesAboveFirstRow(n, -PAGE_SIZE);
  }

  /** Seven rows from the bottom: rows 2..6 are shown, then the loop ends. */
  lemma AsWrittenBottomSevenRows()
    ensures AllPages(7, Bottom, AsWritten) == [Page(2, 7)]
    ensures AllPages(7, Bottom, Intended) == [Page(2, 7), Page(0, 2)]
  {
  }
}
