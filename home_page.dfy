/**
 * The state of the home page: the selected tag and status, the lazy-loading cursor,
 * the flipped card, and the listing derived from them. Every event handler that changes
 * a filter or the cursor updates the fields and then runs the listing effect synchronously;
 * a card click changes only the flipped index, which the effect does not depend on.
 */
module HomePage {
  import opened Catalog
  import opened Seqs
  import opened Pipeline

  /** How many more items each lazy-loading step makes eligible (also the first page size). */
  const LOADED_STEPS: nat := 10

  class Home {
    const allProjects: seq<Project>
    const allTags: seq<Tag>
    /** The "all" sentinel, `allTags[0]`. */
    const tagAll: Tag

    var flippedIndex: int
    var tagsFilter: Tag
    var statusFilter: Status
    var projects: seq<DisplayProject>
    var lastIndexLoaded: nat

    /**
     * The invariant apart from the listing: the sentinel is the first tag, the cursor is at
     * least one step, and the flipped index is -1 or the index of a rendered card.
     */
    ghost predicate Consistent()
      reads this
    {
      |allTags| > 0 && tagAll == allTags[0]
      && LOADED_STEPS <= lastIndexLoaded
      && -1 <= flippedIndex < |projects|
    }

    /** The page invariant: in addition, the listing is the derivation of the current filters and cursor. */
    ghost predicate Valid()
      reads this
    {
      Consistent() && projects == Listing()
    }

    /** What the listing effect derives from the current filters and cursor. */
    ghost function Listing(): seq<DisplayProject>
      reads this
    {
      VisibleProjects(allProjects, allTags, tagsFilter, statusFilter, lastIndexLoaded)
    }

    /** The listing of the current filters before slicing. */
    ghost function Matching(): seq<Project>
      reads this
    {
      Filtered(allProjects, allTags, tagsFilter, statusFilter)
    }

    /** Mounting the page: the initial state, followed by the first run of the listing effect. */
    constructor (allProjects: seq<Project>, allTags: seq<Tag>)
      requires |allTags| > 0
      ensures Valid()
      ensures this.allProjects == allProjects && this.allTags == allTags && tagAll == allTags[0]
      ensures flippedIndex == -1 && tagsFilter == tagAll && statusFilter == All && lastIndexLoaded == LOADED_STEPS
    {
      this.allProjects := allProjects;
      this.allTags := allTags;
      tagAll := allTags[0];
      flippedIndex := -1;
      tagsFilter := allTags[0];
      statusFilter := All;
      lastIndexLoaded := LOADED_STEPS;
      // the listing starts out empty; the listing effect then runs once on mount
      projects := VisibleProjects(allProjects, allTags, allTags[0], All, LOADED_STEPS);
    }

    /**
     * The listing effect: derive the listing from the catalogs, the filters and the cursor.
     * It reads nothing else and changes nothing else, so running it again on a page whose
     * listing is current leaves the page as it was. The handlers that change a filter or
     * the cursor do not call this method: each ends with the same assignment written out,
     * the effect run synchronously for the handler's new state, which keeps their proofs small.
     */
    method Recompute()
      modifies this`projects
      ensures projects == Listing()
      ensures old(Valid()) ==> unchanged(this)
    {
      projects := VisibleProjects(allProjects, allTags, tagsFilter, statusFilter, lastIndexLoaded);
    }

    /** A tag was picked in the tag menu: select it, go back to the first page, flip no card. */
    method OnTagChange(newFilter: Tag)
      requires Consistent()
      modifies this`tagsFilter, this`lastIndexLoaded, this`flippedIndex, this`projects
      ensures Valid()
      ensures tagsFilter == newFilter && lastIndexLoaded == LOADED_STEPS && flippedIndex == -1
    {
      tagsFilter, lastIndexLoaded, flippedIndex := newFilter, LOADED_STEPS, -1;
      projects := VisibleProjects(allProjects, allTags, tagsFilter, statusFilter, lastIndexLoaded);
    }

    /** A status was picked in the status menu: the same resets as for a tag. */
    method OnStatusChange(newStatus: Status)
      requires Consistent()
      modifies this`statusFilter, this`lastIndexLoaded, this`flippedIndex, this`projects
      ensures Valid()
      ensures statusFilter == newStatus && lastIndexLoaded == LOADED_STEPS && flippedIndex == -1
    {
      statusFilter, lastIndexLoaded, flippedIndex := newStatus, LOADED_STEPS, -1;
      projects := VisibleProjects(allProjects, allTags, tagsFilter, statusFilter, lastIndexLoaded);
    }

    /**
     * The last rendered card entered the viewport: one more page becomes eligible. The
     * listing only grows at its end, so the flipped card stays the same card, and once
     * every matching project is listed the listing no longer changes.
     */
    method OnEnter()
      requires Valid()
      modifies this`lastIndexLoaded, this`projects
      ensures Valid()
      ensures lastIndexLoaded == old(lastIndexLoaded) + LOADED_STEPS
      ensures old(projects) == projects[..|old(projects)|]
      ensures |Matching()| <= old(lastIndexLoaded) ==> projects == old(projects)
    {
      var next := lastIndexLoaded + LOADED_STEPS;
      var listing := VisibleProjects(allProjects, allTags, tagsFilter, statusFilter, next);
      VisibleGrows(allProjects, allTags, tagsFilter, statusFilter, lastIndexLoaded, next);
      lastIndexLoaded, projects := next, listing;
    }

    /** `isFlipped` of the card at `index`. */
    predicate IsFlipped(index: int)
      reads this
    {
      flippedIndex == index
    }

    /** A rendered card was clicked: it becomes the one flipped card. */
    method OnCardClick(index: int)
      requires Valid() && 0 <= index < |projects|
      modifies this`flippedIndex
      ensures Valid()
      ensures flippedIndex == index
      ensures forall i :: 0 <= i < |projects| ==> (IsFlipped(i) <==> i == index)
    {
      flippedIndex := index;
    }

    /** The page shows the "no project" placeholder exactly when no catalog project passes both filters. */
    method ShowsPlaceholder() returns (empty: bool)
      requires Valid()
      ensures empty <==> forall p :: p in allProjects ==> !Listed(allTags, tagsFilter, statusFilter, p)
    {
      VisibleEmptyIff(allProjects, allTags, tagsFilter, statusFilter, lastIndexLoaded);
      empty := |projects| == 0;
    }
  }
}
