/**
 * An opportunity's candidate search and enrolment. Tags (industries,
 * interests, metros) are tables of named rows; each `fellows_<tag>` join
 * table is a sequence of (fellow id, tag id) rows.
 */
module Opportunities {
  import opened Wrappers
  import opened RubyString
  import opened RubyArray
  import opened Pipeline

  type TagId = nat

  /** A row of `industries`, `interests` or `metros`. */
  datatype Tag = Tag(id: TagId, name: String)

  /** A row of a fellow/tag join table. */
  datatype JoinRow = JoinRow(fellowId: FellowId, tagId: TagId)

  datatype TagKind = Industry | Interest | Metro

  /** The tables the matching reads and never writes. */
  datatype Catalog = Catalog(
    industries: seq<Tag>,
    interests: seq<Tag>,
    metros: seq<Tag>,
    fellowIndustries: seq<JoinRow>,
    fellowInterests: seq<JoinRow>,
    fellowMetros: seq<JoinRow>,
    /** Ids of the fellows that are not soft-deleted. */
    liveFellows: set<FellowId>)
  {
    function Tags(kind: TagKind): seq<Tag> {
      match kind
      case Industry => industries
      case Interest => interests
      case Metro => metros
    }

    function JoinRows(kind: TagKind): seq<JoinRow> {
      match kind
      case Industry => fellowIndustries
      case Interest => fellowInterests
      case Metro => fellowMetros
    }
  }

  /** The `;`-separated names of `search_params[:industries]`, `[:interests]`, `[:metros]`. */
  datatype SearchParams = SearchParams(industries: Option<String>, interests: Option<String>, metros: Option<String>) {
    function Names(kind: TagKind): Option<String> {
      match kind
      case Industry => industries
      case Interest => interests
      case Metro => metros
    }
  }

  const NoSearch := SearchParams(None, None, None)

  /** `Tag.where(name: names).pluck(:id)`: the ids of the rows whose name is listed, in table order. */
  function IdsNamed(tags: seq<Tag>, names: seq<String>): (r: seq<TagId>)
    ensures forall t :: t in r <==> exists i :: 0 <= i < |tags| && tags[i].id == t && tags[i].name in names
  {
    if tags == [] then []
    else
      var rest := IdsNamed(tags[1..], names);
      assert forall i :: 1 <= i < |tags| ==> tags[i] == tags[1..][i - 1];
      (if tags[0].name in names then [tags[0].id] else []) + rest
  }

  /** `tags.pluck(:name)` for an association holding `ids`, in table order. */
  function NamesOf(tags: seq<Tag>, ids: set<TagId>): (r: seq<String>)
    ensures forall n :: n in r <==> exists i :: 0 <= i < |tags| && tags[i].id in ids && tags[i].name == n
  {
    if tags == [] then []
    else
      var rest := NamesOf(tags[1..], ids);
      assert forall i :: 1 <= i < |tags| ==> tags[i] == tags[1..][i - 1];
      (if tags[0].id in ids then [tags[0].name] else []) + rest
  }

  /** The join table links fellow `f` to one of the `selected` tags. */
  ghost predicate HasTagIn(rows: seq<JoinRow>, f: FellowId, selected: set<TagId>) {
    exists i :: 0 <= i < |rows| && rows[i].fellowId == f && rows[i].tagId in selected
  }

  /** `Fellow<Tag>.fellow_ids_for(selected)`: fellow ids of the join rows for the selected tags. */
  function FellowIdsFor(rows: seq<JoinRow>, selected: set<TagId>): (r: seq<FellowId>)
    ensures forall f :: f in r <==> HasTagIn(rows, f, selected)
  {
    if rows == [] then []
    else
      var rest := FellowIdsFor(rows[1..], selected);
      assert forall i :: 1 <= i < |rows| ==> rows[i] == rows[1..][i - 1];
      (if rows[0].tagId in selected then [rows[0].fellowId] else []) + rest
  }

  /** A tag table whose names survive a `;` join: non-empty, `;`-free and unique, with unique ids. */
  predicate WellFormedTags(tags: seq<Tag>) {
    && (forall i :: 0 <= i < |tags| ==> tags[i].name != [] && NoSeparator(tags[i].name))
    && (forall i, j :: 0 <= i < j < |tags| ==> tags[i].name != tags[j].name && tags[i].id != tags[j].id)
  }

  /** The names an association lists join and split back to themselves. */
  lemma SplitTagString(tags: seq<Tag>, ids: set<TagId>)
    requires WellFormedTags(tags)
    ensures Split(Join(NamesOf(tags, ids))) == NamesOf(tags, ids)
  {
    var ns := NamesOf(tags, ids);
    forall k | 0 <= k < |ns| ensures NoSeparator(ns[k]) && ns[k] != [] {
      assert ns[k] in ns;
    }
    SplitJoin(ns);
  }

  /**
   * Getter then setter: assigning a tag string read from an association
   * gives back the association (the ids the table knows).
   */
  lemma TagIdsRoundTrip(tags: seq<Tag>, ids: set<TagId>)
    requires WellFormedTags(tags)
    ensures forall t :: t in IdsNamed(tags, Split(Join(NamesOf(tags, ids)))) <==>
      t in ids && exists i :: 0 <= i < |tags| && tags[i].id == t
  {
    SplitTagString(tags, ids);
  }

  /**
   * Setter then getter: the tag string read back lists exactly the known
   * names among those assigned.
   */
  lemma TagNamesRoundTrip(tags: seq<Tag>, s: String)
    requires WellFormedTags(tags)
    ensures forall n :: n in Split(Join(NamesOf(tags, set t | t in IdsNamed(tags, Split(s))))) <==>
      n in Split(s) && exists i :: 0 <= i < |tags| && tags[i].name == n
  {
    var ids := set t | t in IdsNamed(tags, Split(s));
    SplitTagString(tags, ids);
  }

  /** What the array arithmetic of `candidates` yields, in terms of its four input lists. */
  lemma CandidateListFacts(interests: seq<FellowId>, industries: seq<FellowId>, metros: seq<FellowId>, linked: seq<FellowId>)
    ensures var ids := Difference(Uniq(Intersect([] + interests + industries, metros)), linked);
      && NoDuplicates(ids)
      && (forall f :: f in ids <==> (f in interests || f in industries) && f in metros && f !in linked)
      && (metros == [] ==> ids == [])
  {
  }

  /** An opportunity record with its tag associations and its `@candidates` memo. */
  class Opportunity {
    const id: OpportunityId
    var industryIds: set<TagId>
    var interestIds: set<TagId>
    var metroIds: set<TagId>
    var candidatesMemo: Option<set<FellowId>>

    constructor (id: OpportunityId)
      ensures this.id == id && industryIds == {} && interestIds == {} && metroIds == {}
      ensures candidatesMemo == None
    {
      this.id := id;
      industryIds, interestIds, metroIds := {}, {}, {};
      candidatesMemo := None;
    }

    /** `industry_ids`, `interest_ids`, `metro_ids` */
    function TagIds(kind: TagKind): set<TagId>
      reads this
    {
      match kind
      case Industry => industryIds
      case Interest => interestIds
      case Metro => metroIds
    }

    /**
     * The tag ids `fellow_ids_for_<kind>(names)` searches by: those named in
     * the `;`-separated search string, or the opportunity's own without one.
     */
    function SelectedTagIds(catalog: Catalog, kind: TagKind, names: Option<String>): (r: set<TagId>)
      reads this
      ensures names.None? ==> r == TagIds(kind)
      ensures names.Some? ==> forall t :: t in r <==>
        exists i :: 0 <= i < |catalog.Tags(kind)| && catalog.Tags(kind)[i].id == t && catalog.Tags(kind)[i].name in Split(names.value)
    {
      if names.Some? then (set t | t in IdsNamed(catalog.Tags(kind), Split(names.value))) else TagIds(kind)
    }

    /** `fellow_ids_for_industries`, `fellow_ids_for_interests`, `fellow_ids_for_metros` */
    function FellowIdsForKind(catalog: Catalog, kind: TagKind, names: Option<String>): (r: seq<FellowId>)
      reads this
      ensures forall f :: f in r <==> HasTagIn(catalog.JoinRows(kind), f, SelectedTagIds(catalog, kind, names))
    {
      FellowIdsFor(catalog.JoinRows(kind), SelectedTagIds(catalog, kind, names))
    }

    /** Fellow `f` shares a searched tag of this kind with the opportunity. */
    ghost predicate MatchesOn(catalog: Catalog, kind: TagKind, params: SearchParams, f: FellowId)
      reads this
    {
      HasTagIn(catalog.JoinRows(kind), f, SelectedTagIds(catalog, kind, params.Names(kind)))
    }

    /**
     * The candidate rule: an interest or industry match, a metro match, and
     * no live link to this opportunity yet.
     */
    ghost predicate IsCandidate(catalog: Catalog, links: seq<Link>, params: SearchParams, f: FellowId)
      reads this
    {
      && (MatchesOn(catalog, Interest, params, f) || MatchesOn(catalog, Industry, params, f))
      && MatchesOn(catalog, Metro, params, f)
      && !HasLiveLink(links, id, f)
    }

    /** The `candidate_ids` list that `candidates` builds. */
    method CandidateIds(catalog: Catalog, table: FellowOpportunityTable, params: SearchParams) returns (ids: seq<FellowId>)
      ensures NoDuplicates(ids)
      ensures forall f :: f in ids <==> IsCandidate(catalog, Snapshot(table.rows), params, f)
      ensures FellowIdsForKind(catalog, Metro, params.metros) == [] ==> ids == []
    {
      var interests := FellowIdsForKind(catalog, Interest, params.interests);
      var industries := FellowIdsForKind(catalog, Industry, params.industries);
      var metros := FellowIdsForKind(catalog, Metro, params.metros);
      var linked := LinkedFellowIds(Snapshot(table.rows), id);
      ids := [];
      // an interest match or an industry match qualifies a fellow
      ids := ids + interests;
      ids := ids + industries;
      // a metro match is required as well
      ids := Intersect(ids, metros);
      ids := Uniq(ids);
      // fellows with a live pipeline row drop out
      ids := Difference(ids, linked);
      CandidateListFacts(interests, industries, metros, linked);
      CandidateMembership(catalog, Snapshot(table.rows), params, interests, industries, metros, linked);
    }

    /** The lists `candidates` works on hold exactly the fellows the candidate rule speaks of. */
    lemma CandidateMembership(catalog: Catalog, links: seq<Link>, params: SearchParams,
                              interests: seq<FellowId>, industries: seq<FellowId>, metros: seq<FellowId>, linked: seq<FellowId>)
      requires interests == FellowIdsForKind(catalog, Interest, params.interests)
      requires industries == FellowIdsForKind(catalog, Industry, params.industries)
      requires metros == FellowIdsForKind(catalog, Metro, params.metros)
      requires linked == LinkedFellowIds(links, id)
      ensures forall f :: ((f in interests || f in industries) && f in metros && f !in linked) <==> IsCandidate(catalog, links, params, f)
    {
    }

    /**
     * `candidates(search_params)`: the live fellows among the candidate ids,
     * computed on the first call and returned unchanged by every later one,
     * whatever its parameters.
     */
    method Candidates(catalog: Catalog, table: FellowOpportunityTable, searchParams: Option<SearchParams>) returns (r: set<FellowId>)
      modifies this`candidatesMemo
      ensures old(candidatesMemo).Some? ==> r == old(candidatesMemo).value && candidatesMemo == old(candidatesMemo)
      ensures old(candidatesMemo).None? ==> candidatesMemo == Some(r)
      ensures old(candidatesMemo).None? ==> forall f :: f in r <==>
        f in catalog.liveFellows && IsCandidate(catalog, Snapshot(table.rows), searchParams.GetOr(NoSearch), f)
    {
      var params := searchParams.GetOr(NoSearch);
      if candidatesMemo.Some? {
        return candidatesMemo.value;
      }
      var ids := CandidateIds(catalog, table, params);
      r := set f | f in ids && f in catalog.liveFellows;
      candidatesMemo := Some(r);
    }

    /** `industry_tags`, `interest_tags`, `metro_tags`: the associated names joined with `;`. */
    function TagString(catalog: Catalog, kind: TagKind): (r: String)
      reads this
      ensures WellFormedTags(catalog.Tags(kind)) ==> forall n :: n in Split(r) <==>
        exists i :: 0 <= i < |catalog.Tags(kind)| && catalog.Tags(kind)[i].id in TagIds(kind) && catalog.Tags(kind)[i].name == n
    {
      var r := Join(NamesOf(catalog.Tags(kind), TagIds(kind)));
      if WellFormedTags(catalog.Tags(kind)) then SplitTagString(catalog.Tags(kind), TagIds(kind)); r else r
    }

    /** `industry_tags=`, `interest_tags=`, `metro_tags=`: keep the known tags named in the string. */
    method SetTagString(catalog: Catalog, kind: TagKind, s: String)
      modifies this`industryIds, this`interestIds, this`metroIds
      ensures forall t :: t in TagIds(kind) <==>
        exists i :: 0 <= i < |catalog.Tags(kind)| && catalog.Tags(kind)[i].id == t && catalog.Tags(kind)[i].name in Split(s)
      ensures forall k :: k != kind ==> TagIds(k) == old(TagIds(k))
      ensures unchanged(this`candidatesMemo)
    {
      var ids := set t | t in IdsNamed(catalog.Tags(kind), Split(s));
      match kind
      case Industry => industryIds := ids;
      case Interest => interestIds := ids;
      case Metro => metroIds := ids;
    }

    /**
     * One step of `candidate_ids=`: restore the row `archived_fellow_opp`
     * finds for the fellow, or else create one at `initialStage`.
     */
    method EnrolCandidate(table: FellowOpportunityTable, initialStage: Option<Stage>, fellowId: FellowId) returns (ok: bool)
      requires table.Valid()
      modifies table`rows, table.rows`deleted
      ensures table.Valid()
      ensures |old(table.rows)| <= |table.rows| && table.rows[..|old(table.rows)|] == old(table.rows)
      ensures forall k :: |old(table.rows)| <= k < |table.rows| ==> fresh(table.rows[k])
      ensures Snapshot(table.rows) == Enrol(old(Snapshot(table.rows)), id, initialStage, fellowId).links
      ensures ok == Enrol(old(Snapshot(table.rows)), id, initialStage, fellowId).ok
    {
      var archived := FindWithDeleted(Snapshot(table.rows), id, fellowId);
      if archived.Some? {
        table.RestoreAt(archived.value);
        ok := true;
      } else if initialStage.None? {
        ok := false;
      } else {
        var link := table.Create(fellowId, id, initialStage.value);
        ok := true;
      }
    }

    /**
     * `candidate_ids = list`: enrols the listed fellows in turn, at the stage
     * with position 0 when a row has to be created; `ok` is false when
     * `create!` raises for want of that stage.
     */
    method SetCandidateIds(table: FellowOpportunityTable, stages: seq<Stage>, candidateIds: seq<FellowId>) returns (ok: bool)
      requires table.Valid()
      modifies table`rows, table.rows`deleted
      ensures table.Valid()
      ensures |old(table.rows)| <= |table.rows| && table.rows[..|old(table.rows)|] == old(table.rows)
      ensures forall k :: |old(table.rows)| <= k < |table.rows| ==> fresh(table.rows[k])
      ensures Snapshot(table.rows) == EnrolAll(old(Snapshot(table.rows)), id, FindByPosition(stages, 0), candidateIds).links
      ensures ok == EnrolAll(old(Snapshot(table.rows)), id, FindByPosition(stages, 0), candidateIds).ok
    {
      var initialStage := FindByPosition(stages, 0);
      ghost var goal := EnrolAll(Snapshot(table.rows), id, initialStage, candidateIds);
      ghost var oldRows := table.rows;
      var i := 0;
      while i < |candidateIds|
        invariant 0 <= i <= |candidateIds|
        invariant table.Valid()
        invariant |oldRows| <= |table.rows| && table.rows[..|oldRows|] == oldRows
        invariant forall k :: |oldRows| <= k < |table.rows| ==> fresh(table.rows[k])
        invariant EnrolAll(Snapshot(table.rows), id, initialStage, candidateIds[i..]) == goal
      {
        ok := EnrolCandidate(table, initialStage, candidateIds[i]);
        assert candidateIds[i..][1..] == candidateIds[i + 1..];
        if !ok {
          return;
        }
        i := i + 1;
      }
      ok := true;
    }
  }

  /** The table after one enrolment, and whether it succeeded. */
  datatype Enrolment = Enrolment(links: seq<Link>, ok: bool)

  /**
   * One fellow's enrolment: the fellow's row for the opportunity becomes
   * live again, or a row at `initialStage` is added; without one and
   * without that stage, `create!` raises and nothing changes.
   */
  function Enrol(links: seq<Link>, opportunityId: OpportunityId, initialStage: Option<Stage>, fellowId: FellowId): Enrolment {
    match FindWithDeleted(links, opportunityId, fellowId)
    case Some(k) => Enrolment(links[k := links[k].(deleted := false)], true)
    case None =>
      if initialStage.None? then Enrolment(links, false)
      else Enrolment(links + [NewLink(fellowId, opportunityId, initialStage.value)], true)
  }

  /** The loop of `candidate_ids=`, which stops at the first enrolment that raises. */
  function EnrolAll(links: seq<Link>, opportunityId: OpportunityId, initialStage: Option<Stage>, fellowIds: seq<FellowId>): Enrolment
    decreases |fellowIds|
  {
    if fellowIds == [] then Enrolment(links, true)
    else
      var e := Enrol(links, opportunityId, initialStage, fellowIds[0]);
      if !e.ok then e else EnrolAll(e.links, opportunityId, initialStage, fellowIds[1..])
  }

  /** Rows `a` and `b` hold the same (fellow, opportunity) pairs in the same order. */
  ghost predicate SameKeys(a: seq<Link>, b: seq<Link>) {
    |a| == |b| && forall k :: 0 <= k < |a| ==> a[k].fellowId == b[k].fellowId && a[k].opportunityId == b[k].opportunityId
  }

  /** The lookup of `archived_fellow_opp` depends on the pairs only, not on stage, flags or logs. */
  lemma {:induction false} FindBySameKeys(a: seq<Link>, b: seq<Link>, opportunityId: OpportunityId, fellowId: FellowId)
    requires SameKeys(a, b)
    ensures FindWithDeleted(a, opportunityId, fellowId) == FindWithDeleted(b, opportunityId, fellowId)
  {
    if a != [] {
      assert SameKeys(a[1..], b[1..]) by {
        forall k | 0 <= k < |a[1..]| ensures a[1..][k].fellowId == b[1..][k].fellowId && a[1..][k].opportunityId == b[1..][k].opportunityId {
          assert a[1..][k] == a[k + 1] && b[1..][k] == b[k + 1];
        }
      }
      FindBySameKeys(a[1..], b[1..], opportunityId, fellowId);
    }
  }

  /**
   * What an enrolment may do to the rows it started from: each old row is
   * kept or restored (and then it is a row of this opportunity for a listed
   * fellow), and rows are only ever added at the end.
   */
  ghost predicate KeptOrRestored(before: seq<Link>, after: seq<Link>, opportunityId: OpportunityId, fellowIds: seq<FellowId>) {
    && |before| <= |after|
    && forall k :: 0 <= k < |before| ==>
      || after[k] == before[k]
      || (after[k] == before[k].(deleted := false) && before[k].opportunityId == opportunityId && before[k].fellowId in fellowIds)
  }

  /** Every added row is a fresh `create!` for a listed fellow that had no row at all, at `initialStage`. */
  ghost predicate AddedAtStage(before: seq<Link>, after: seq<Link>, opportunityId: OpportunityId, initialStage: Option<Stage>, fellowIds: seq<FellowId>) {
    && (|before| < |after| ==> initialStage.Some?)
    && forall k :: |before| <= k < |after| ==>
      && initialStage.Some?
      && after[k] == NewLink(after[k].fellowId, opportunityId, initialStage.value)
      && after[k].fellowId in fellowIds
      && FindWithDeleted(before, opportunityId, after[k].fellowId).None?
  }

  /** One enrolment changes the rows only as `candidate_ids=` may. */
  lemma EnrolChanges(links: seq<Link>, opportunityId: OpportunityId, initialStage: Option<Stage>, fellowId: FellowId)
    ensures var e := Enrol(links, opportunityId, initialStage, fellowId);
      && KeptOrRestored(links, e.links, opportunityId, [fellowId])
      && AddedAtStage(links, e.links, opportunityId, initialStage, [fellowId])
  {
  }

  /** One enrolment succeeds when there is a row or a stage to create one at, and then the fellow's row is live. */
  lemma EnrolOutcome(links: seq<Link>, opportunityId: OpportunityId, initialStage: Option<Stage>, fellowId: FellowId)
    ensures var e := Enrol(links, opportunityId, initialStage, fellowId);
      && (e.ok <==> initialStage.Some? || FindWithDeleted(links, opportunityId, fellowId).Some?)
      && (!e.ok ==> e.links == links)
      && (e.ok ==> HasLiveLink(e.links, opportunityId, fellowId))
  {
    var e := Enrol(links, opportunityId, initialStage, fellowId);
    if e.ok {
      var k := match FindWithDeleted(links, opportunityId, fellowId) case Some(k) => k case None => |links|;
      assert e.links[k].Matches(opportunityId, fellowId) && !e.links[k].deleted;
    }
  }

  /** A pair with no row after an enrolment had none before it. */
  lemma EnrolFindsLess(links: seq<Link>, opportunityId: OpportunityId, initialStage: Option<Stage>, fellowId: FellowId, g: FellowId)
    requires FindWithDeleted(Enrol(links, opportunityId, initialStage, fellowId).links, opportunityId, g).None?
    ensures FindWithDeleted(links, opportunityId, g).None?
  {
    var e := Enrol(links, opportunityId, initialStage, fellowId);
    EnrolChanges(links, opportunityId, initialStage, fellowId);
    forall i | 0 <= i < |links| ensures !links[i].Matches(opportunityId, g) {
      assert !e.links[i].Matches(opportunityId, g);
    }
  }

  /** Two enrolments in a row change the rows only as the two together may. */
  lemma ChangesCompose(a: seq<Link>, b: seq<Link>, c: seq<Link>, opportunityId: OpportunityId, initialStage: Option<Stage>,
                       first: seq<FellowId>, rest: seq<FellowId>, fellowIds: seq<FellowId>)
    requires KeptOrRestored(a, b, opportunityId, first) && AddedAtStage(a, b, opportunityId, initialStage, first)
    requires KeptOrRestored(b, c, opportunityId, rest) && AddedAtStage(b, c, opportunityId, initialStage, rest)
    requires forall f :: f in first || f in rest ==> f in fellowIds
    ensures KeptOrRestored(a, c, opportunityId, fellowIds) && AddedAtStage(a, c, opportunityId, initialStage, fellowIds)
  {
    forall k | |a| <= k < |c|
      ensures && initialStage.Some?
              && c[k] == NewLink(c[k].fellowId, opportunityId, initialStage.value)
              && c[k].fellowId in fellowIds
              && FindWithDeleted(a, opportunityId, c[k].fellowId).None?
    {
      if k >= |b| {
        var f := c[k].fellowId;
        assert FindWithDeleted(b, opportunityId, f).None?;
        forall i | 0 <= i < |a| ensures !a[i].Matches(opportunityId, f) {
          assert !b[i].Matches(opportunityId, f);
        }
      }
    }
  }

  /**
   * `candidate_ids=` leaves every old row in place, restoring only rows of
   * this opportunity for listed fellows, and adds only rows at the initial
   * stage for listed fellows that had none.
   */
  lemma {:induction false} EnrolAllChanges(links: seq<Link>, opportunityId: OpportunityId, initialStage: Option<Stage>, fellowIds: seq<FellowId>)
    ensures KeptOrRestored(links, EnrolAll(links, opportunityId, initialStage, fellowIds).links, opportunityId, fellowIds)
    ensures AddedAtStage(links, EnrolAll(links, opportunityId, initialStage, fellowIds).links, opportunityId, initialStage, fellowIds)
    decreases |fellowIds|
  {
    if fellowIds != [] {
      var e := Enrol(links, opportunityId, initialStage, fellowIds[0]);
      EnrolChanges(links, opportunityId, initialStage, fellowIds[0]);
      if e.ok {
        var r := EnrolAll(e.links, opportunityId, initialStage, fellowIds[1..]);
        EnrolAllChanges(e.links, opportunityId, initialStage, fellowIds[1..]);
        ChangesCompose(links, e.links, r.links, opportunityId, initialStage, [fellowIds[0]], fellowIds[1..], fellowIds);
      } else {
        ChangesCompose(links, e.links, e.links, opportunityId, initialStage, [fellowIds[0]], [], fellowIds);
      }
    }
  }

  /** Kept or restored rows stay live. */
  lemma LiveKept(before: seq<Link>, after: seq<Link>, opportunityId: OpportunityId, fellowIds: seq<FellowId>, o: OpportunityId, f: FellowId)
    requires KeptOrRestored(before, after, opportunityId, fellowIds) && HasLiveLink(before, o, f)
    ensures HasLiveLink(after, o, f)
  {
    var i :| 0 <= i < |before| && before[i].Matches(o, f) && !before[i].deleted;
    assert after[i].Matches(o, f) && !after[i].deleted;
  }

  /** A row that is live stays live through `candidate_ids=`. */
  lemma EnrolAllKeepsLive(links: seq<Link>, opportunityId: OpportunityId, initialStage: Option<Stage>, fellowIds: seq<FellowId>, o: OpportunityId, f: FellowId)
    requires HasLiveLink(links, o, f)
    ensures HasLiveLink(EnrolAll(links, opportunityId, initialStage, fellowIds).links, o, f)
  {
    EnrolAllChanges(links, opportunityId, initialStage, fellowIds);
    LiveKept(links, EnrolAll(links, opportunityId, initialStage, fellowIds).links, opportunityId, fellowIds, o, f);
  }

  /** Without a stage at position 0 nothing is created, so the pairs stay the same. */
  lemma NoStageSameKeys(links: seq<Link>, after: seq<Link>, opportunityId: OpportunityId, fellowIds: seq<FellowId>)
    requires KeptOrRestored(links, after, opportunityId, fellowIds) && AddedAtStage(links, after, opportunityId, None, fellowIds)
    ensures SameKeys(links, after)
  {
  }

  /**
   * `candidate_ids=` raises exactly when some listed fellow has no row for
   * this opportunity and there is no stage at position 0.
   */
  lemma {:induction false} EnrolAllOk(links: seq<Link>, opportunityId: OpportunityId, initialStage: Option<Stage>, fellowIds: seq<FellowId>)
    ensures EnrolAll(links, opportunityId, initialStage, fellowIds).ok <==>
      (initialStage.Some? || forall k :: 0 <= k < |fellowIds| ==> FindWithDeleted(links, opportunityId, fellowIds[k]).Some?)
    decreases |fellowIds|
  {
    if fellowIds != [] {
      var e := Enrol(links, opportunityId, initialStage, fellowIds[0]);
      EnrolChanges(links, opportunityId, initialStage, fellowIds[0]);
      EnrolOutcome(links, opportunityId, initialStage, fellowIds[0]);
      if e.ok {
        EnrolAllOk(e.links, opportunityId, initialStage, fellowIds[1..]);
        if initialStage.None? {
          NoStageSameKeys(links, e.links, opportunityId, [fellowIds[0]]);
          forall k | 1 <= k < |fellowIds| ensures FindWithDeleted(e.links, opportunityId, fellowIds[1..][k - 1]) == FindWithDeleted(links, opportunityId, fellowIds[k]) {
            assert fellowIds[1..][k - 1] == fellowIds[k];
            FindBySameKeys(e.links, links, opportunityId, fellowIds[k]);
          }
        }
      }
    }
  }

  /** After `candidate_ids=` completes, every listed fellow has a live row for the opportunity. */
  lemma {:induction false} EnrolAllLive(links: seq<Link>, opportunityId: OpportunityId, initialStage: Option<Stage>, fellowIds: seq<FellowId>)
    requires EnrolAll(links, opportunityId, initialStage, fellowIds).ok
    ensures forall k :: 0 <= k < |fellowIds| ==> HasLiveLink(EnrolAll(links, opportunityId, initialStage, fellowIds).links, opportunityId, fellowIds[k])
    decreases |fellowIds|
  {
    if fellowIds != [] {
      var e := Enrol(links, opportunityId, initialStage, fellowIds[0]);
      EnrolOutcome(links, opportunityId, initialStage, fellowIds[0]);
      var r := EnrolAll(e.links, opportunityId, initialStage, fellowIds[1..]);
      assert r == EnrolAll(links, opportunityId, initialStage, fellowIds);
      EnrolAllLive(e.links, opportunityId, initialStage, fellowIds[1..]);
      EnrolAllKeepsLive(e.links, opportunityId, initialStage, fellowIds[1..], opportunityId, fellowIds[0]);
      forall k | 1 <= k < |fellowIds| ensures HasLiveLink(r.links, opportunityId, fellowIds[k]) {
        assert fellowIds[k] == fellowIds[1..][k - 1];
      }
    }
  }

  /**
   * When `candidate_ids=` raises, it is at a fellow with no row at all, and
   * every fellow listed before that one has a live row.
   */
  lemma {:induction false} EnrolAllStops(links: seq<Link>, opportunityId: OpportunityId, initialStage: Option<Stage>, fellowIds: seq<FellowId>)
    requires !EnrolAll(links, opportunityId, initialStage, fellowIds).ok
    ensures initialStage.None?
    ensures exists m :: (
      && 0 <= m < |fellowIds|
      && FindWithDeleted(links, opportunityId, fellowIds[m]).None?
      && forall k :: 0 <= k < m ==> HasLiveLink(EnrolAll(links, opportunityId, initialStage, fellowIds).links, opportunityId, fellowIds[k]))
    decreases |fellowIds|
  {
    var e := Enrol(links, opportunityId, initialStage, fellowIds[0]);
    EnrolOutcome(links, opportunityId, initialStage, fellowIds[0]);
    if !e.ok {
      assert FindWithDeleted(links, opportunityId, fellowIds[0]).None?;
    } else {
      var rest := fellowIds[1..];
      var r := EnrolAll(e.links, opportunityId, initialStage, rest);
      assert r == EnrolAll(links, opportunityId, initialStage, fellowIds);
      EnrolAllStops(e.links, opportunityId, initialStage, rest);
      EnrolAllKeepsLive(e.links, opportunityId, initialStage, rest, opportunityId, fellowIds[0]);
      var m :| && 0 <= m < |rest|
               && FindWithDeleted(e.links, opportunityId, rest[m]).None?
               && forall k :: 0 <= k < m ==> HasLiveLink(r.links, opportunityId, rest[k]);
      EnrolFindsLess(links, opportunityId, initialStage, fellowIds[0], rest[m]);
      forall k | 0 <= k < m + 1 ensures HasLiveLink(r.links, opportunityId, fellowIds[k]) {
        if k > 0 {
          assert fellowIds[k] == rest[k - 1];
        }
      }
      assert fellowIds[m + 1] == rest[m];
    }
  }

  /** Enrolment keeps the unique index on (fellow_id, opportunity_id). */
  lemma {:induction false} EnrolAllUnique(links: seq<Link>, opportunityId: OpportunityId, initialStage: Option<Stage>, fellowIds: seq<FellowId>)
    requires UniquePairs(links)
    ensures UniquePairs(EnrolAll(links, opportunityId, initialStage, fellowIds).links)
    decreases |fellowIds|
  {
    if fellowIds != [] {
      var e := Enrol(links, opportunityId, initialStage, fellowIds[0]);
      EnrolChanges(links, opportunityId, initialStage, fellowIds[0]);
      assert UniquePairs(e.links);
      if e.ok {
        EnrolAllUnique(e.links, opportunityId, initialStage, fellowIds[1..]);
      }
    }
  }

  /** Enrolling fellows who all have a live row changes nothing. */
  lemma {:induction false} EnrolAllLiveNoOp(links: seq<Link>, opportunityId: OpportunityId, initialStage: Option<Stage>, fellowIds: seq<FellowId>)
    requires UniquePairs(links)
    requires forall k :: 0 <= k < |fellowIds| ==> HasLiveLink(links, opportunityId, fellowIds[k])
    ensures EnrolAll(links, opportunityId, initialStage, fellowIds) == Enrolment(links, true)
    decreases |fellowIds|
  {
    if fellowIds != [] {
      var i :| 0 <= i < |links| && links[i].Matches(opportunityId, fellowIds[0]) && !links[i].deleted;
      FindWithDeletedUnique(links, opportunityId, fellowIds[0], i);
      assert links[i := links[i].(deleted := false)] == links;
      forall k | 0 <= k < |fellowIds[1..]| ensures HasLiveLink(links, opportunityId, fellowIds[1..][k]) {
        assert fellowIds[1..][k] == fellowIds[k + 1];
      }
      EnrolAllLiveNoOp(links, opportunityId, initialStage, fellowIds[1..]);
    }
  }

  /** Assigning the same candidate list a second time changes nothing. */
  lemma EnrolAllIdempotent(links: seq<Link>, opportunityId: OpportunityId, initialStage: Option<Stage>, fellowIds: seq<FellowId>)
    requires UniquePairs(links) && EnrolAll(links, opportunityId, initialStage, fellowIds).ok
    ensures var r := EnrolAll(links, opportunityId, initialStage, fellowIds).links;
      EnrolAll(r, opportunityId, initialStage, fellowIds) == Enrolment(r, true)
  {
    var r := EnrolAll(links, opportunityId, initialStage, fellowIds).links;
    EnrolAllUnique(links, opportunityId, initialStage, fellowIds);
    EnrolAllLive(links, opportunityId, initialStage, fellowIds);
    EnrolAllLiveNoOp(r, opportunityId, initialStage, fellowIds);
  }
}
