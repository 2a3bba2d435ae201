/**
 * The listing derivation of the home page: filter by tag, filter by status, sort by
 * lower-cased name, keep the first `cursor` items, attach each item's tag records.
 * Every stage returns a new sequence; the catalogs are never changed.
 */
module Pipeline {
  import opened Catalog
  import opened Seqs
  import opened NameOrder
  import opened Sorting

  // ---------------------------------------------------------------- tag stage

  /** The "all" sentinel is the first entry of the tag catalog. */
  predicate IsTagAll(allTags: seq<Tag>, tagsFilter: Tag) {
    |allTags| > 0 && tagsFilter == allTags[0]
  }

  /** The tag stage keeps a project when the sentinel is selected or the project lists the selected tag. */
  predicate TagKeeps(allTags: seq<Tag>, tagsFilter: Tag, p: Project) {
    IsTagAll(allTags, tagsFilter) || tagsFilter.value in p.tags
  }

  function TagStage(catalog: seq<Project>, allTags: seq<Tag>, tagsFilter: Tag): (r: seq<Project>)
    ensures IsSubsequence(r, catalog)
    ensures forall p :: p in r <==> p in catalog && TagKeeps(allTags, tagsFilter, p)
  {
    Filter(catalog, p => TagKeeps(allTags, tagsFilter, p))
  }

  /** With the sentinel selected the tag stage keeps the whole catalog, in its order. */
  lemma TagStageAll(catalog: seq<Project>, allTags: seq<Tag>)
    requires |allTags| > 0
    ensures TagStage(catalog, allTags, allTags[0]) == catalog
  {
    FilterKeepsAll(catalog, p => TagKeeps(allTags, allTags[0], p));
  }

  /** With any other tag selected the tag stage keeps exactly the projects that list its value. */
  lemma TagStageSelected(catalog: seq<Project>, allTags: seq<Tag>, tagsFilter: Tag)
    requires !IsTagAll(allTags, tagsFilter)
    ensures forall p :: p in TagStage(catalog, allTags, tagsFilter) <==> p in catalog && tagsFilter.value in p.tags
  {
  }

  // ------------------------------------------------------------- status stage

  /** ALL keeps everything, LIVE the live projects, TESTNET the projects live on testnet but not live. */
  predicate StatusKeeps(status: Status, p: Project) {
    status == All
    || (p.isLive && status == Live)
    || (!p.isLive && p.isTestnetLive && status == Testnet)
  }

  function StatusStage(projects: seq<Project>, status: Status): (r: seq<Project>)
    ensures IsSubsequence(r, projects)
    ensures forall p :: p in r <==> p in projects && StatusKeeps(status, p)
  {
    Filter(projects, p => StatusKeeps(status, p))
  }

  lemma StatusStageAll(projects: seq<Project>)
    ensures StatusStage(projects, All) == projects
  {
    FilterKeepsAll(projects, p => StatusKeeps(All, p));
  }

  lemma StatusStageLive(projects: seq<Project>)
    ensures forall p :: p in StatusStage(projects, Live) <==> p in projects && p.isLive
  {
  }

  lemma StatusStageTestnet(projects: seq<Project>)
    ensures forall p :: p in StatusStage(projects, Testnet) <==> p in projects && !p.isLive && p.isTestnetLive
  {
  }

  /** A project live on both networks is listed under LIVE only: the LIVE and TESTNET listings never share a project. */
  lemma LiveAndTestnetDisjoint(projects: seq<Project>)
    ensures forall p :: !(p in StatusStage(projects, Live) && p in StatusStage(projects, Testnet))
  {
  }

  /** A project live on neither network is listed under ALL and under no other status. */
  lemma NotLiveOnlyUnderAll(projects: seq<Project>, p: Project, status: Status)
    requires p in projects && !p.isLive && !p.isTestnetLive
    ensures p in StatusStage(projects, status) <==> status == All
  {
  }

  /** A project passes both filters. */
  predicate Listed(allTags: seq<Tag>, tagsFilter: Tag, status: Status, p: Project) {
    TagKeeps(allTags, tagsFilter, p) && StatusKeeps(status, p)
  }

  /** Both filters, in the order the page applies them. */
  function Filtered(catalog: seq<Project>, allTags: seq<Tag>, tagsFilter: Tag, status: Status): (r: seq<Project>)
    ensures IsSubsequence(r, catalog)
    ensures forall p :: p in r <==> p in catalog && Listed(allTags, tagsFilter, status, p)
  {
    var byTag := TagStage(catalog, allTags, tagsFilter);
    var r := StatusStage(byTag, status);
    IsSubsequenceTransitive(r, byTag, catalog);
    r
  }

  /** A project passing both filters occurs in the filtered list as often as in the catalog; any other does not occur. */
  lemma FilteredMultiset(catalog: seq<Project>, allTags: seq<Tag>, tagsFilter: Tag, status: Status)
    ensures var filtered := Filtered(catalog, allTags, tagsFilter, status);
      forall p :: multiset(filtered)[p] == if Listed(allTags, tagsFilter, status, p) then multiset(catalog)[p] else 0
  {
    FilterMultiset(catalog, p => TagKeeps(allTags, tagsFilter, p));
    FilterMultiset(TagStage(catalog, allTags, tagsFilter), p => StatusKeeps(status, p));
  }

  // -------------------------------------------------------------------- sort

  /** The sort key: the lower-cased name. */
  function Key(p: Project): string {
    Lower(p.name)
  }

  /** The comparator `name1.toLowerCase().localeCompare(name2.toLowerCase()) <= 0`. */
  function ByName(): (Project, Project) -> bool {
    (p: Project, q: Project) => LexLe(Key(p), Key(q))
  }

  lemma ByNameIsTotalPreorder()
    ensures IsTotalPreorder(ByName())
  {
    forall p: Project, q: Project
      ensures ByName()(p, q) || ByName()(q, p)
    {
      LexLeTotal(Key(p), Key(q));
    }
    forall p: Project, q: Project, o: Project | ByName()(p, q) && ByName()(q, o)
      ensures ByName()(p, o)
    {
      LexLeTransitive(Key(p), Key(q), Key(o));
    }
  }

  /** The test "has sort key `k`", to compare the projects of one name before and after sorting. */
  function KeyIs(k: string): Project -> bool {
    q => Key(q) == k
  }

  /** The sort step: ascending by lower-cased name, a permutation of its input. */
  function SortByName(s: seq<Project>): (r: seq<Project>)
    ensures SortedBy(r, ByName())
    ensures multiset(r) == multiset(s) && |r| == |s|
  {
    ByNameIsTotalPreorder();
    var r := InsertionSort(s, ByName());
    assert |multiset(r)| == |multiset(s)|;
    r
  }

  /** The sort is stable: the projects that share a lower-cased name come out in the order they went in. */
  lemma SortByNameStable(s: seq<Project>, k: string)
    ensures Filter(SortByName(s), KeyIs(k)) == Filter(s, KeyIs(k))
  {
    ByNameIsTotalPreorder();
    LexLeReflexive(k);
    InsertionSortStable(s, ByName(), KeyIs(k));
  }

  // ------------------------------------------------------------------ enrich

  /** The tag records a project refers to: the tag catalog filtered by the project's tag list. */
  function TagsRef(allTags: seq<Tag>, tags: seq<string>): (r: seq<Tag>)
    ensures IsSubsequence(r, allTags)
    ensures forall t :: t in r <==> t in allTags && t.value in tags
  {
    Filter(allTags, (t: Tag) => t.value in tags)
  }

  /** The item carries the project's fields and exactly its tag records, in tag-catalog order. */
  ghost predicate ResolvesTags(d: DisplayProject, allTags: seq<Tag>) {
    IsSubsequence(d.tagsRef, allTags) && forall t :: t in d.tagsRef <==> t in allTags && t.value in d.tags
  }

  /** `{...project, tagsRef}`. */
  function Enrich(p: Project, allTags: seq<Tag>): (d: DisplayProject)
    ensures d.Source() == p
  {
    DisplayProject(p.name, p.tags, p.isLive, p.isTestnetLive, TagsRef(allTags, p.tags))
  }

  /** The item built from a project carries exactly the project's tag records, in tag-catalog order. */
  lemma EnrichResolvesTags(p: Project, allTags: seq<Tag>)
    ensures ResolvesTags(Enrich(p, allTags), allTags)
  {
  }

  /** `.map(enrich)`: one item per project, in the same order. */
  function EnrichAll(s: seq<Project>, allTags: seq<Tag>): (r: seq<DisplayProject>)
    ensures |r| == |s|
    ensures forall i :: 0 <= i < |s| ==> r[i] == Enrich(s[i], allTags)
  {
    seq(|s|, i requires 0 <= i < |s| => Enrich(s[i], allTags))
  }

  /** The projects the items were built from. */
  function Sources(r: seq<DisplayProject>): (s: seq<Project>)
    ensures |s| == |r|
    ensures forall i :: 0 <= i < |r| ==> s[i] == r[i].Source()
  {
    seq(|r|, i requires 0 <= i < |r| => r[i].Source())
  }

  /** Building the items and taking their projects back gives the projects that went in. */
  lemma SourcesOfEnrichAll(s: seq<Project>, allTags: seq<Tag>)
    ensures Sources(EnrichAll(s, allTags)) == s
  {
  }

  // ------------------------------------------------------------- the listing

  /** The list the page renders for the given filters and pagination cursor. */
  function VisibleProjects(catalog: seq<Project>, allTags: seq<Tag>, tagsFilter: Tag, status: Status, cursor: nat)
    : (r: seq<DisplayProject>)
    ensures |r| <= cursor
  {
    EnrichAll(Take(SortByName(Filtered(catalog, allTags, tagsFilter, status)), cursor), allTags)
  }

  /** The listing holds `cursor` items, or every matching project when there are fewer. */
  lemma VisibleLength(catalog: seq<Project>, allTags: seq<Tag>, tagsFilter: Tag, status: Status, cursor: nat)
    ensures |VisibleProjects(catalog, allTags, tagsFilter, status, cursor)| == Min(cursor, |Filtered(catalog, allTags, tagsFilter, status)|)
  {
  }

  /** The listing is in ascending order of lower-cased name. */
  lemma VisibleSorted(catalog: seq<Project>, allTags: seq<Tag>, tagsFilter: Tag, status: Status, cursor: nat)
    ensures var r := VisibleProjects(catalog, allTags, tagsFilter, status, cursor);
      forall i, j :: 0 <= i < j < |r| ==> LexLe(Lower(r[i].name), Lower(r[j].name))
  {
    var sorted := SortByName(Filtered(catalog, allTags, tagsFilter, status));
    var r := VisibleProjects(catalog, allTags, tagsFilter, status, cursor);
    forall i, j | 0 <= i < j < |r|
      ensures LexLe(Lower(r[i].name), Lower(r[j].name))
    {
      assert r[i].name == sorted[i].name && r[j].name == sorted[j].name;
      assert ByName()(sorted[i], sorted[j]);
    }
  }

  /** Every listed item is a catalog project that passes both filters, carrying exactly its tag records. */
  lemma VisibleItemsMatch(catalog: seq<Project>, allTags: seq<Tag>, tagsFilter: Tag, status: Status, cursor: nat)
    ensures var r := VisibleProjects(catalog, allTags, tagsFilter, status, cursor);
      forall i :: 0 <= i < |r| ==>
        r[i].Source() in catalog && Listed(allTags, tagsFilter, status, r[i].Source()) && ResolvesTags(r[i], allTags)
  {
    var filtered := Filtered(catalog, allTags, tagsFilter, status);
    var sorted := SortByName(filtered);
    var r := VisibleProjects(catalog, allTags, tagsFilter, status, cursor);
    forall i | 0 <= i < |r|
      ensures r[i].Source() in catalog && Listed(allTags, tagsFilter, status, r[i].Source())
    {
      assert r[i].Source() == sorted[i];
      assert sorted[i] in multiset(sorted);
      assert sorted[i] in filtered;
    }
  }

  /** The listing is the first items of the sorted, doubly filtered catalog. */
  lemma VisibleIsSortedPrefix(catalog: seq<Project>, allTags: seq<Tag>, tagsFilter: Tag, status: Status, cursor: nat)
    ensures var r := VisibleProjects(catalog, allTags, tagsFilter, status, cursor);
      Sources(r) == SortByName(Filtered(catalog, allTags, tagsFilter, status))[..|r|]
  {
  }

  /** Once the cursor covers the filtered catalog, the listing is a permutation of it: every matching project is listed. */
  lemma VisibleComplete(catalog: seq<Project>, allTags: seq<Tag>, tagsFilter: Tag, status: Status, cursor: nat)
    requires |Filtered(catalog, allTags, tagsFilter, status)| <= cursor
    ensures multiset(Sources(VisibleProjects(catalog, allTags, tagsFilter, status, cursor)))
      == multiset(Filtered(catalog, allTags, tagsFilter, status))
  {
    var filtered := Filtered(catalog, allTags, tagsFilter, status);
    var sorted := SortByName(filtered);
    var r := VisibleProjects(catalog, allTags, tagsFilter, status, cursor);
    VisibleIsSortedPrefix(catalog, allTags, tagsFilter, status, cursor);
    assert |r| == |sorted|;
    assert Sources(r) == sorted;
  }

  /** Raising the cursor only appends: the smaller listing is a prefix of the larger one. */
  lemma VisibleCursorMonotone(catalog: seq<Project>, allTags: seq<Tag>, tagsFilter: Tag, status: Status, n: nat, m: nat)
    requires n <= m
    ensures var small := VisibleProjects(catalog, allTags, tagsFilter, status, n);
      small == VisibleProjects(catalog, allTags, tagsFilter, status, m)[..|small|]
  {
  }

  /** One lazy-loading step in one statement: the listing grows at its end, and not at all once it is complete. */
  lemma VisibleGrows(catalog: seq<Project>, allTags: seq<Tag>, tagsFilter: Tag, status: Status, n: nat, m: nat)
    requires n <= m
    ensures var small, big := VisibleProjects(catalog, allTags, tagsFilter, status, n), VisibleProjects(catalog, allTags, tagsFilter, status, m);
      |small| <= |big| && small == big[..|small|] && (|Filtered(catalog, allTags, tagsFilter, status)| <= n ==> big == small)
  {
    VisibleCursorMonotone(catalog, allTags, tagsFilter, status, n, m);
    if |Filtered(catalog, allTags, tagsFilter, status)| <= n {
      VisibleSaturates(catalog, allTags, tagsFilter, status, n, m);
    }
  }

  /** Past the size of the filtered catalog the cursor no longer changes the listing. */
  lemma VisibleSaturates(catalog: seq<Project>, allTags: seq<Tag>, tagsFilter: Tag, status: Status, n: nat, m: nat)
    requires |Filtered(catalog, allTags, tagsFilter, status)| <= n && |Filtered(catalog, allTags, tagsFilter, status)| <= m
    ensures VisibleProjects(catalog, allTags, tagsFilter, status, n) == VisibleProjects(catalog, allTags, tagsFilter, status, m)
  {
  }

  /**
   * Lazy loading over 25 matching projects with steps of 10: the first page lists 10, one
   * step lists 20, the next lists all 25, and further steps change nothing.
   */
  lemma PagesOfTwentyFive(catalog: seq<Project>, allTags: seq<Tag>, tagsFilter: Tag, status: Status)
    requires |Filtered(catalog, allTags, tagsFilter, status)| == 25
    ensures |VisibleProjects(catalog, allTags, tagsFilter, status, 10)| == 10
    ensures |VisibleProjects(catalog, allTags, tagsFilter, status, 20)| == 20
    ensures |VisibleProjects(catalog, allTags, tagsFilter, status, 30)| == 25
    ensures VisibleProjects(catalog, allTags, tagsFilter, status, 40) == VisibleProjects(catalog, allTags, tagsFilter, status, 30)
  {
    VisibleLength(catalog, allTags, tagsFilter, status, 10);
    VisibleLength(catalog, allTags, tagsFilter, status, 20);
    VisibleLength(catalog, allTags, tagsFilter, status, 30);
    VisibleSaturates(catalog, allTags, tagsFilter, status, 30, 40);
  }

  /** With a positive cursor the listing is empty exactly when no catalog project passes both filters. */
  lemma VisibleEmptyIff(catalog: seq<Project>, allTags: seq<Tag>, tagsFilter: Tag, status: Status, cursor: nat)
    requires cursor > 0
    ensures VisibleProjects(catalog, allTags, tagsFilter, status, cursor) == [] <==>
      forall p :: p in catalog ==> !Listed(allTags, tagsFilter, status, p)
  {
    var filtered := Filtered(catalog, allTags, tagsFilter, status);
    if filtered != [] {
      assert filtered[0] in filtered;
    }
  }

  /** Sorting is case-insensitive: "Bravo", "alpha", "Charlie" come out as "alpha", "Bravo", "Charlie". */
  lemma SortCaseInsensitiveExample()
    ensures var bravo, alpha, charlie := Project("Bravo", [], true, false), Project("alpha", [], true, false), Project("Charlie", [], true, false);
      SortByName([bravo, alpha, charlie]) == [alpha, bravo, charlie]
  {
    var bravo, alpha, charlie := Project("Bravo", [], true, false), Project("alpha", [], true, false), Project("Charlie", [], true, false);
    assert ByName()(alpha, charlie) && !ByName()(bravo, alpha) && ByName()(bravo, charlie) by {
      assert Key(alpha)[0] == 'a' && Key(bravo)[0] == 'b' && Key(charlie)[0] == 'c';
      LexLeFirst(Key(alpha), Key(charlie));
      LexLeFirst(Key(bravo), Key(alpha));
      LexLeFirst(Key(bravo), Key(charlie));
    }
    ByNameIsTotalPreorder();
    InsertionSortThree(bravo, alpha, charlie, ByName());
  }
}
