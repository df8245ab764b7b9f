/**
 * The new-value computations of the artwork selection hook: what each state
 * setter is handed, written as functions over the selection, an ordered list
 * of record ids. A record is reduced to its id because every comparison the
 * hook makes between records is a comparison of ids.
 */
module SelectionState {

  datatype Option<+T> = None | Some(value: T)

  /** The bulk-selection intent: select `totalToSelect` rows starting at `startPage`. */
  datatype Config = Config(totalToSelect: int, startPage: int)

  /** No id occurs twice in the selection. */
  predicate NoDuplicateIds(s: seq<int>) {
    forall i, j :: 0 <= i < j < |s| ==> s[i] != s[j]
  }

  function Min(a: int, b: int): (m: int)
    ensures m <= a && m <= b && (m == a || m == b)
  {
    if a <= b then a else b
  }

  /** Whether some record of `s` has this id. */
  function AnyHasId(s: seq<int>, id: int): (b: bool)
    ensures b <==> id in s
  {
    if s == [] then false
    else s[0] == id || AnyHasId(s[1..], id)
  }

  lemma {:induction false} DistinctConcat(a: seq<int>, b: seq<int>)
    requires NoDuplicateIds(a) && NoDuplicateIds(b)
    requires forall x :: x in a ==> x !in b
    ensures NoDuplicateIds(a + b)
  {
    forall i, j | 0 <= i < j < |a + b| ensures (a + b)[i] != (a + b)[j] {
      if j < |a| {
      } else if i < |a| {
        assert (a + b)[i] in a && (a + b)[j] in b;
      } else {
        assert (a + b)[i] == b[i - |a|] && (a + b)[j] == b[j - |a|];
      }
    }
  }

  /** The records of `s` whose id is not among `ids`, in their order in `s`. */
  function RemoveIds(s: seq<int>, ids: seq<int>): (r: seq<int>)
    ensures |r| <= |s|
    ensures forall x :: x in r <==> x in s && x !in ids
  {
    if s == [] then []
    else if AnyHasId(ids, s[0]) then RemoveIds(s[1..], ids)
    else [s[0]] + RemoveIds(s[1..], ids)
  }

  /** Filtering cannot bring a duplicate into a duplicate-free list. */
  lemma {:induction false} RemoveIdsPreservesNoDuplicates(s: seq<int>, ids: seq<int>)
    requires NoDuplicateIds(s)
    ensures NoDuplicateIds(RemoveIds(s, ids))
  {
    if s != [] {
      assert NoDuplicateIds(s[1..]) && s[0] !in s[1..];
      RemoveIdsPreservesNoDuplicates(s[1..], ids);
      if s[0] !in ids {
        DistinctConcat([s[0]], RemoveIds(s[1..], ids));
      }
    }
  }

  /** The complementary filter: the records of `s` that belong to `ids`, in order. */
  function KeepIds(s: seq<int>, ids: seq<int>): (r: seq<int>)
    ensures |r| <= |s|
    ensures forall x :: x in r <==> x in s && x in ids
  {
    if s == [] then []
    else if AnyHasId(ids, s[0]) then [s[0]] + KeepIds(s[1..], ids)
    else KeepIds(s[1..], ids)
  }

  lemma {:induction false} RemoveIdsConcat(a: seq<int>, b: seq<int>, ids: seq<int>)
    ensures RemoveIds(a + b, ids) == RemoveIds(a, ids) + RemoveIds(b, ids)
  {
    if a == [] {
      assert a + b == b;
    } else {
      assert (a + b)[0] == a[0] && (a + b)[1..] == a[1..] + b;
      RemoveIdsConcat(a[1..], b, ids);
      assert [a[0]] + (RemoveIds(a[1..], ids) + RemoveIds(b, ids)) == ([a[0]] + RemoveIds(a[1..], ids)) + RemoveIds(b, ids);
    }
  }

  lemma {:induction false} KeepIdsConcat(a: seq<int>, b: seq<int>, ids: seq<int>)
    ensures KeepIds(a + b, ids) == KeepIds(a, ids) + KeepIds(b, ids)
  {
    if a == [] {
      assert a + b == b;
    } else {
      assert (a + b)[0] == a[0] && (a + b)[1..] == a[1..] + b;
      KeepIdsConcat(a[1..], b, ids);
      assert [a[0]] + (KeepIds(a[1..], ids) + KeepIds(b, ids)) == ([a[0]] + KeepIds(a[1..], ids)) + KeepIds(b, ids);
    }
  }

  /** Removing the records of a page leaves a selection with none of them untouched. */
  lemma {:induction false} RemoveIdsNoneOnPage(s: seq<int>, ids: seq<int>)
    requires forall x :: x in s ==> x !in ids
    ensures RemoveIds(s, ids) == s
  {
    if s != [] {
      assert s[0] in s;
      RemoveIdsNoneOnPage(s[1..], ids);
    }
  }

  /** Keeping the records of a page leaves a list drawn from that page untouched. */
  lemma {:induction false} KeepIdsAllOnPage(s: seq<int>, ids: seq<int>)
    requires forall x :: x in s ==> x in ids
    ensures KeepIds(s, ids) == s
  {
    if s != [] {
      assert s[0] in s;
      KeepIdsAllOnPage(s[1..], ids);
    }
  }

  lemma RemoveIdsAllOnPage(s: seq<int>, ids: seq<int>)
    requires forall x :: x in s ==> x in ids
    ensures RemoveIds(s, ids) == []
  {
  }

  lemma KeepIdsNoneOnPage(s: seq<int>, ids: seq<int>)
    requires forall x :: x in s ==> x !in ids
    ensures KeepIds(s, ids) == []
  {
  }

  /** Filtering the same page out twice is filtering it out once. */
  lemma RemoveIdsIdempotent(s: seq<int>, ids: seq<int>)
    ensures RemoveIds(RemoveIds(s, ids), ids) == RemoveIds(s, ids)
  {
    RemoveIdsNoneOnPage(RemoveIds(s, ids), ids);
  }

  /**
   * The selection a fresh bulk request makes on the current page: its first
   * `min(numRows, |artworks|)` records.
   */
  function BulkPrefix(artworks: seq<int>, numRows: int): (r: seq<int>)
    requires numRows > 0
    ensures |r| <= |artworks| && r == artworks[..|r|]
    ensures |r| <= numRows
    ensures |r| == numRows || r == artworks
    ensures NoDuplicateIds(artworks) ==> NoDuplicateIds(r)
  {
    artworks[..Min(numRows, |artworks|)]
  }

  /** How many rows the intent has already accounted for on the pages before `pageNumber`. */
  function ItemsProcessedBefore(config: Config, pageNumber: int, rowsPerPage: int): (before: int) {
    (pageNumber - config.startPage) * rowsPerPage
  }

  /**
   * How many leading records of page `pageNumber` the intent selects, or None
   * where the page handler returns early: no intent, quota already met by the
   * earlier pages, or a page before the one the intent started on.
   */
  function ItemsToSelectOnPage(config: Option<Config>, pageNumber: int, rowsPerPage: int, pageLength: nat): (q: Option<int>)
    ensures q.None? <==>
      || config.None?
      || ItemsProcessedBefore(config.value, pageNumber, rowsPerPage) >= config.value.totalToSelect
      || pageNumber < config.value.startPage
    ensures q.Some? ==>
      var remaining := config.value.totalToSelect - ItemsProcessedBefore(config.value, pageNumber, rowsPerPage);
      && 0 <= q.value <= pageLength
      && q.value <= remaining
      && (q.value == pageLength || q.value == remaining)
      && (q.value == 0 <==> pageLength == 0)
  {
    match config
    case None => None
    case Some(cfg) =>
      var before := ItemsProcessedBefore(cfg, pageNumber, rowsPerPage);
      if before >= cfg.totalToSelect then None
      else if pageNumber < cfg.startPage then None
      else Some(Min(cfg.totalToSelect - before, pageLength))
  }

  /**
   * The selection after the intent is applied to one page: the records of that
   * page are dropped from the selection and its computed prefix is appended.
   * Nothing changes when the handler returns early or selects nothing.
   */
  function SpillOnto(sel: seq<int>, config: Option<Config>, page: seq<int>, pageNumber: int, rowsPerPage: int): (r: seq<int>)
    ensures ItemsToSelectOnPage(config, pageNumber, rowsPerPage, |page|).None? ==> r == sel
    ensures page == [] ==> r == sel
  {
    match ItemsToSelectOnPage(config, pageNumber, rowsPerPage, |page|)
    case None => sel
    case Some(k) =>
      if k > 0 then RemoveIds(sel, page) + page[..k]
      else sel
  }

  /**
   * Whenever the guards pass, the page's first k records end the new
   * selection, nothing from the page comes before them, and the records of
   * other pages before them are the old selection's, in the old order.
   */
  lemma SpillEffect(sel: seq<int>, config: Option<Config>, page: seq<int>, pageNumber: int, rowsPerPage: int)
    requires ItemsToSelectOnPage(config, pageNumber, rowsPerPage, |page|).Some?
    ensures var k := ItemsToSelectOnPage(config, pageNumber, rowsPerPage, |page|).value;
      var r := SpillOnto(sel, config, page, pageNumber, rowsPerPage);
      && k <= |r|
      && r[|r| - k..] == page[..k]
      && (forall x :: x in r[..|r| - k] ==> x !in page)
      && RemoveIds(r[..|r| - k], page) == RemoveIds(sel, page)
  {
    var k := ItemsToSelectOnPage(config, pageNumber, rowsPerPage, |page|).value;
    var r := SpillOnto(sel, config, page, pageNumber, rowsPerPage);
    if k == 0 {
      assert page == [] && r == sel && r[..|r|] == sel;
    } else {
      assert r[..|r| - k] == RemoveIds(sel, page);
      RemoveIdsIdempotent(sel, page);
    }
  }

  /**
   * Re-applying a fresh intent to the page it was issued on reproduces the
   * bulk request's own selection: the start page has no earlier pages
   * eating into the quota.
   */
  lemma ReapplyAtStartPage(page: seq<int>, numRows: int, startPage: int, rowsPerPage: int)
    requires numRows > 0
    ensures var prefix := BulkPrefix(page, numRows);
      SpillOnto(prefix, Some(Config(numRows, startPage)), page, startPage, rowsPerPage) == prefix
  {
    var prefix := BulkPrefix(page, numRows);
    assert ItemsToSelectOnPage(Some(Config(numRows, startPage)), startPage, rowsPerPage, |page|)
      == Some(Min(numRows, |page|));
    forall x | x in prefix ensures x in page {
    }
    RemoveIdsAllOnPage(prefix, page);
  }

  /** Applying the intent to a page leaves the records of every other page as they were, in order. */
  lemma SpillKeepsOtherPages(sel: seq<int>, config: Option<Config>, page: seq<int>, pageNumber: int, rowsPerPage: int)
    ensures RemoveIds(SpillOnto(sel, config, page, pageNumber, rowsPerPage), page) == RemoveIds(sel, page)
    ensures forall x :: x !in page ==> (x in SpillOnto(sel, config, page, pageNumber, rowsPerPage) <==> x in sel)
  {
    var q := ItemsToSelectOnPage(config, pageNumber, rowsPerPage, |page|);
    if q.Some? && q.value > 0 {
      var k := q.value;
      RemoveIdsConcat(RemoveIds(sel, page), page[..k], page);
      RemoveIdsIdempotent(sel, page);
      RemoveIdsAllOnPage(page[..k], page);
    }
  }

  /**
   * When the intent reaches a page, that page's part of the selection becomes
   * exactly its first k records, k bounded by the page length and by the
   * remaining quota.
   */
  lemma SpillPageContribution(sel: seq<int>, config: Option<Config>, page: seq<int>, pageNumber: int, rowsPerPage: int)
    requires ItemsToSelectOnPage(config, pageNumber, rowsPerPage, |page|).Some?
    requires page != []
    ensures var k := ItemsToSelectOnPage(config, pageNumber, rowsPerPage, |page|).value;
      KeepIds(SpillOnto(sel, config, page, pageNumber, rowsPerPage), page) == page[..k]
    ensures var added := KeepIds(SpillOnto(sel, config, page, pageNumber, rowsPerPage), page);
      && 0 < |added| <= |page|
      && |added| <= config.value.totalToSelect - ItemsProcessedBefore(config.value, pageNumber, rowsPerPage)
  {
    var k := ItemsToSelectOnPage(config, pageNumber, rowsPerPage, |page|).value;
    KeepIdsConcat(RemoveIds(sel, page), page[..k], page);
    KeepIdsNoneOnPage(RemoveIds(sel, page), page);
    KeepIdsAllOnPage(page[..k], page);
  }

  /**
   * On the page an intent for at least one row started on, that page's part
   * of the selection becomes exactly what the bulk request selected there.
   */
  lemma SpillOntoStartPage(sel: seq<int>, config: Option<Config>, page: seq<int>, pageNumber: int, rowsPerPage: int)
    ensures config.Some? && config.value.totalToSelect > 0 && pageNumber == config.value.startPage ==>
      KeepIds(SpillOnto(sel, config, page, pageNumber, rowsPerPage), page) == BulkPrefix(page, config.value.totalToSelect)
  {
    if config.Some? && config.value.totalToSelect > 0 && pageNumber == config.value.startPage {
      var n := config.value.totalToSelect;
      assert ItemsToSelectOnPage(config, pageNumber, rowsPerPage, |page|) == Some(Min(n, |page|));
      if page == [] {
        KeepIdsNoneOnPage(sel, page);
      } else {
        SpillPageContribution(sel, config, page, pageNumber, rowsPerPage);
      }
    }
  }

  /** Applying the intent to the same page twice in a row gives the same selection as once. */
  lemma SpillIdempotent(sel: seq<int>, config: Option<Config>, page: seq<int>, pageNumber: int, rowsPerPage: int)
    ensures var once := SpillOnto(sel, config, page, pageNumber, rowsPerPage);
      SpillOnto(once, config, page, pageNumber, rowsPerPage) == once
  {
    var q := ItemsToSelectOnPage(config, pageNumber, rowsPerPage, |page|);
    if q.Some? && q.value > 0 {
      var k := q.value;
      RemoveIdsConcat(RemoveIds(sel, page), page[..k], page);
      RemoveIdsIdempotent(sel, page);
      RemoveIdsAllOnPage(page[..k], page);
    }
  }

  /** A page whose ids are distinct cannot bring a duplicate into a duplicate-free selection. */
  lemma SpillPreservesNoDuplicates(sel: seq<int>, config: Option<Config>, page: seq<int>, pageNumber: int, rowsPerPage: int)
    ensures NoDuplicateIds(sel) && NoDuplicateIds(page) ==>
      NoDuplicateIds(SpillOnto(sel, config, page, pageNumber, rowsPerPage))
  {
    var q := ItemsToSelectOnPage(config, pageNumber, rowsPerPage, |page|);
    if NoDuplicateIds(sel) && NoDuplicateIds(page) && q.Some? && q.value > 0 {
      var k := q.value;
      var kept := RemoveIds(sel, page);
      RemoveIdsPreservesNoDuplicates(sel, page);
      forall x | x in kept ensures x !in page[..k] {
        assert x !in page;
      }
      DistinctConcat(kept, page[..k]);
    }
  }

  /** A full page of twelve records numbered consecutively, page 1 holding ids 1 to 12. */
  function FullPage(n: int): (p: seq<int>)
    ensures |p| == 12
    ensures forall i :: 0 <= i < 12 ==> p[i] == 12 * (n - 1) + i + 1
  {
    seq(12, i => 12 * (n - 1) + i + 1)
  }

  /*
   * A request for 15 rows on page 1 of twelve-row pages: page 1 gives all its
   * twelve records, page 2 its first three, page 3 none.
   */

  lemma SpillExampleFirstPage()
    ensures BulkPrefix(FullPage(1), 15) == FullPage(1)
    ensures SpillOnto(FullPage(1), Some(Config(15, 1)), FullPage(1), 1, 12) == FullPage(1)
  {
    var p1 := FullPage(1);
    assert p1[..12] == p1;
    assert ItemsToSelectOnPage(Some(Config(15, 1)), 1, 12, 12) == Some(12);
    RemoveIdsAllOnPage(p1, p1);
  }

  lemma SpillExampleSecondPage()
    ensures SpillOnto(FullPage(1), Some(Config(15, 1)), FullPage(2), 2, 12) == FullPage(1) + FullPage(2)[..3]
  {
    var p1, p2 := FullPage(1), FullPage(2);
    assert ItemsToSelectOnPage(Some(Config(15, 1)), 2, 12, 12) == Some(3);
    forall x | x in p1 ensures x !in p2 {
      assert 1 <= x <= 12;
    }
    RemoveIdsNoneOnPage(p1, p2);
  }

  lemma SpillExampleThirdPage(sel: seq<int>)
    ensures SpillOnto(sel, Some(Config(15, 1)), FullPage(3), 3, 12) == sel
  {
    assert ItemsToSelectOnPage(Some(Config(15, 1)), 3, 12, 12).None?;
  }

  /**
   * `toggleArtworkSelection`'s new selection: a selected id is removed
   * everywhere it occurs, an unselected one is appended.
   */
  function Toggled(sel: seq<int>, id: int): (r: seq<int>)
    ensures forall x :: x in r <==> (if x == id then id !in sel else x in sel)
    ensures RemoveIds(r, [id]) == RemoveIds(sel, [id])
    ensures id !in sel ==> r == sel + [id]
    ensures id in sel ==> |r| < |sel|
  {
    if AnyHasId(sel, id) then
      RemoveIdsShrinks(sel, [id]);
      RemoveIdsIdempotent(sel, [id]);
      RemoveIds(sel, [id])
    else
      RemoveIdsConcat(sel, [id], [id]);
      RemoveIdsAllOnPage([id], [id]);
      sel + [id]
  }

  /** Toggling one id cannot bring a duplicate into a duplicate-free selection. */
  lemma ToggledPreservesNoDuplicates(sel: seq<int>, id: int)
    ensures NoDuplicateIds(sel) ==> NoDuplicateIds(Toggled(sel, id))
  {
    if NoDuplicateIds(sel) {
      if id in sel {
        RemoveIdsPreservesNoDuplicates(sel, [id]);
      } else {
        DistinctConcat(sel, [id]);
      }
    }
  }

  /** Removing the records of a page that is represented in the selection makes it shorter. */
  lemma {:induction false} RemoveIdsShrinks(s: seq<int>, ids: seq<int>)
    requires exists x :: x in s && x in ids
    ensures |RemoveIds(s, ids)| < |s|
  {
    var x :| x in s && x in ids;
    if s[0] != x {
      assert x in s[1..];
      RemoveIdsShrinks(s[1..], ids);
    } else {
      assert RemoveIds(s, ids) == RemoveIds(s[1..], ids);
    }
  }
}
