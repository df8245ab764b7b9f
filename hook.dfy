/**
 * The artwork selection hook as an object: its two pieces of React state are
 * fields, and each operation that calls their setters is a method. The page
 * the hook is rendered with (the records on screen, their page number and the
 * page size) is passed to the methods that read it.
 */
module ArtworkSelectionHook {
  import opened SelectionState

  class ArtworkSelection {
    /** The selected records, by id, in the order they were selected. */
    var selectedArtworks: seq<int>
    /** The bulk-selection intent, if one is active. */
    var selectionConfig: Option<Config>

    /** No id is selected twice, and an intent always asks for at least one row. */
    ghost predicate Valid()
      reads this
    {
      && NoDuplicateIds(selectedArtworks)
      && (selectionConfig.Some? ==> selectionConfig.value.totalToSelect > 0)
    }

    /** Both pieces of state start empty. */
    constructor ()
      ensures selectedArtworks == [] && selectionConfig == None
      ensures Valid()
    {
      selectedArtworks := [];
      selectionConfig := None;
    }

    /**
     * A request to select `numRows` rows, made while `artworks` is the page
     * `currentPage` on screen: a non-positive count is ignored; otherwise the
     * intent is replaced and the selection becomes the page's first rows,
     * discarding what other pages had selected.
     */
    method SelectMultipleRows(numRows: int, artworks: seq<int>, currentPage: int)
      modifies this
      ensures numRows <= 0 ==>
        selectedArtworks == old(selectedArtworks) && selectionConfig == old(selectionConfig)
      ensures numRows > 0 ==>
        && selectionConfig == Some(Config(numRows, currentPage))
        && selectedArtworks == BulkPrefix(artworks, numRows)
        && |selectedArtworks| == Min(numRows, |artworks|)
        && forall x :: x in selectedArtworks ==> x in artworks
      ensures old(Valid()) && NoDuplicateIds(artworks) ==> Valid()
    {
      if numRows <= 0 {
        return;
      }
      selectionConfig := Some(Config(numRows, currentPage));
      selectedArtworks := BulkPrefix(artworks, numRows);
    }

    /**
     * Applies the active intent to page `pageNumber` holding `pageArtworks`:
     * that page's part of the selection is recomputed, other pages' records
     * stay, and the intent itself is kept.
     */
    method HandlePageSelection(pageArtworks: seq<int>, pageNumber: int, rowsPerPage: int)
      modifies this
      ensures selectionConfig == old(selectionConfig)
      ensures selectedArtworks == SpillOnto(old(selectedArtworks), old(selectionConfig), pageArtworks, pageNumber, rowsPerPage)
      ensures RemoveIds(selectedArtworks, pageArtworks) == RemoveIds(old(selectedArtworks), pageArtworks)
      ensures old(Valid()) && old(selectionConfig).Some? && pageNumber == old(selectionConfig).value.startPage ==>
        KeepIds(selectedArtworks, pageArtworks) == BulkPrefix(pageArtworks, old(selectionConfig).value.totalToSelect)
      ensures old(Valid()) && NoDuplicateIds(pageArtworks) ==> Valid()
    {
      SpillKeepsOtherPages(selectedArtworks, selectionConfig, pageArtworks, pageNumber, rowsPerPage);
      SpillOntoStartPage(selectedArtworks, selectionConfig, pageArtworks, pageNumber, rowsPerPage);
      SpillPreservesNoDuplicates(selectedArtworks, selectionConfig, pageArtworks, pageNumber, rowsPerPage);
      var q := ItemsToSelectOnPage(selectionConfig, pageNumber, rowsPerPage, |pageArtworks|);
      if q.None? {
        return;
      }
      var itemsToSelectOnPage := q.value;
      if itemsToSelectOnPage > 0 {
        var pageSelection := pageArtworks[..itemsToSelectOnPage];
        var filteredPrev := RemoveIds(selectedArtworks, pageArtworks);
        selectedArtworks := filteredPrev + pageSelection;
      }
    }

    /** Forgets the selection and the intent. */
    method ClearSelection()
      modifies this
      ensures selectedArtworks == [] && selectionConfig == None
      ensures Valid()
    {
      selectedArtworks := [];
      selectionConfig := None;
    }

    /**
     * Flips one record: a selected id is removed and abandons the intent; an
     * unselected one is appended and leaves the intent as it was.
     */
    method ToggleArtworkSelection(artwork: int)
      modifies this
      ensures selectedArtworks == Toggled(old(selectedArtworks), artwork)
      ensures RemoveIds(selectedArtworks, [artwork]) == RemoveIds(old(selectedArtworks), [artwork])
      ensures selectionConfig == if artwork in old(selectedArtworks) then None else old(selectionConfig)
      ensures IsArtworkSelected(artwork) == !old(IsArtworkSelected(artwork))
      ensures forall x :: x != artwork ==> IsArtworkSelected(x) == old(IsArtworkSelected(x))
      ensures old(Valid()) ==> Valid()
    {
      var isSelected := AnyHasId(selectedArtworks, artwork);
      if isSelected {
        if selectionConfig.Some? {
          selectionConfig := None;
        }
      }
      ToggledPreservesNoDuplicates(selectedArtworks, artwork);
      selectedArtworks := Toggled(selectedArtworks, artwork);
    }

    /** Whether a record with this id is selected. */
    function IsArtworkSelected(artwork: int): (b: bool)
      reads this
      ensures b <==> artwork in selectedArtworks
    {
      AnyHasId(selectedArtworks, artwork)
    }

    /**
     * The table's own checkbox edit: the selection becomes exactly
     * `newSelection`, and the intent is dropped iff one was active and the
     * selection shrank.
     */
    method HandleDataTableSelectionChange(newSelection: seq<int>)
      modifies this
      ensures selectedArtworks == newSelection
      ensures selectionConfig ==
        if |newSelection| < |old(selectedArtworks)| && old(selectionConfig).Some? then None
        else old(selectionConfig)
      ensures old(Valid()) && NoDuplicateIds(newSelection) ==> Valid()
    {
      if |newSelection| < |selectedArtworks| && selectionConfig.Some? {
        selectionConfig := None;
      }
      selectedArtworks := newSelection;
    }
  }
}
