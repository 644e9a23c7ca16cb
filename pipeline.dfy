/**
 * A fellow's place in one opportunity's hiring pipeline: the
 * `FellowOpportunity` record, its stage state machine (`update_stage`), its
 * active flag, its log, and the `fellow_opportunities` table it lives in.
 */
module Pipeline {
  import opened Wrappers
  import opened RubyString

  type FellowId = nat
  type OpportunityId = nat

  /** A row of `opportunity_stages`. */
  datatype Stage = Stage(id: nat, name: String, position: int)

  /** `OpportunityStage.find_by(name: name)`: the first stage of the table with that name. */
  function FindByName(stages: seq<Stage>, name: String): (r: Option<Stage>)
    ensures r.None? <==> forall i :: 0 <= i < |stages| ==> stages[i].name != name
    ensures r.Some? ==> r.value in stages && r.value.name == name
  {
    if stages == [] then None
    else if stages[0].name == name then Some(stages[0])
    else FindByName(stages[1..], name)
  }

  /** `OpportunityStage.find_by(position: p)`: the first stage of the table at that position. */
  function FindByPosition(stages: seq<Stage>, p: int): (r: Option<Stage>)
    ensures r.None? <==> forall i :: 0 <= i < |stages| ==> stages[i].position != p
    ensures r.Some? ==> r.value in stages && r.value.position == p
  {
    if stages == [] then None
    else if stages[0].position == p then Some(stages[0])
    else FindByPosition(stages[1..], p)
  }

  /** The stages after which a fellow is no longer active in the pipeline. */
  const TerminalStageNames: seq<String> := ["fellow accepted", "fellow declined", "employer declined"]

  predicate IsTerminal(name: String) {
    name in TerminalStageNames
  }

  /** The position `next_opportunity_stage` counts from: that of `from`, else of `current`. */
  function BasePosition(stages: seq<Stage>, current: Stage, from: Option<String>): int
    requires from.Some? ==> FindByName(stages, from.value).Some?
  {
    if from.Some? then FindByName(stages, from.value).value.position else current.position
  }

  /**
   * `next_opportunity_stage(from)`: the stage one position after the base
   * position, or nil when the table has none there.
   */
  function NextStage(stages: seq<Stage>, current: Stage, from: Option<String>): (r: Option<Stage>)
    requires from.Some? ==> FindByName(stages, from.value).Some?
    ensures r.Some? ==> r.value in stages && r.value.position == BasePosition(stages, current, from) + 1
    ensures r.None? <==> forall i :: 0 <= i < |stages| ==> stages[i].position != BasePosition(stages, current, from) + 1
  {
    FindByPosition(stages, BasePosition(stages, current, from) + 1)
  }

  /**
   * When `update_stage(command, from: from)` gets through without raising:
   * every stage name it looks up exists, and for 'next' and 'skip' so does
   * the stage after the base position (otherwise Ruby calls a method on nil).
   */
  predicate CanUpdateStage(stages: seq<Stage>, current: Stage, command: String, from: Option<String>) {
    if command == "no change" then
      from.Some? ==> FindByName(stages, from.value).Some?
    else if command == "next" || command == "skip" then
      (from.Some? ==> FindByName(stages, from.value).Some?) && NextStage(stages, current, from).Some?
    else
      FindByName(stages, command).Some?
  }

  /** One `fellow_opportunities` row, with its `candidate_logs` as `logs`. */
  class FellowOpportunity {
    const fellowId: FellowId
    const opportunityId: OpportunityId
    var stage: Stage
    var active: bool
    /** Soft deletion (`acts_as_paranoid`): a deleted row stays in the table. */
    var deleted: bool
    var logs: seq<String>

    /** `fellow_opportunities.create!(fellow_id:, opportunity_stage:)`; `active` takes its column default. */
    constructor (fellowId: FellowId, opportunityId: OpportunityId, stage: Stage)
      ensures Value() == NewLink(fellowId, opportunityId, stage)
    {
      this.fellowId := fellowId;
      this.opportunityId := opportunityId;
      this.stage := stage;
      this.active := ActiveByDefault;
      this.deleted := false;
      this.logs := [];
    }

    /** The row's current values. */
    function Value(): Link
      reads this
    {
      Link(fellowId, opportunityId, stage, active, deleted, logs)
    }

    /** The state every `update_stage` leaves behind: inactive exactly at the terminal stages. */
    ghost predicate ActiveMatchesStage()
      reads this
    {
      active == !IsTerminal(stage.name)
    }

    /** `log(message)`: appends one log entry. */
    method Log(message: String)
      modifies this`logs
      ensures logs == old(logs) + [message]
    {
      logs := logs + [message];
    }

    /** `activate!` */
    method Activate()
      modifies this`active
      ensures active
    {
      active := true;
    }

    /** `archive!` */
    method Archive()
      modifies this`active
      ensures !active
    {
      active := false;
    }

    /** paranoia's `restore`: clears the soft deletion, a no-op on a live row. */
    method Restore()
      modifies this`deleted
      ensures Value() == old(Value()).(deleted := false)
    {
      deleted := false;
    }

    /** `update_stage(command, from: from)` */
    method UpdateStage(stages: seq<Stage>, command: String, from: Option<String>)
      requires CanUpdateStage(stages, stage, command, from)
      modifies this`stage, this`active, this`logs
      ensures command == "no change" ==>
        && stage == (if from.Some? then FindByName(stages, from.value).value else old(stage))
        && logs == old(logs) + [stage.name]
      ensures command == "next" ==>
        && Some(stage) == NextStage(stages, old(stage), from)
        && logs == old(logs) + [stage.name]
      ensures command == "skip" ==>
        && Some(stage) == NextStage(stages, old(stage), from)
        && logs == old(logs) + ["skipped to: " + stage.name]
      ensures command !in ["no change", "next", "skip"] ==>
        && Some(stage) == FindByName(stages, command)
        && logs == old(logs) + [command]
      ensures |logs| == |old(logs)| + 1 && logs[..|old(logs)|] == old(logs)
      ensures ActiveMatchesStage()
    {
      if command == "no change" {
        if from.Some? {
          stage := FindByName(stages, from.value).value;
        }
        Log(stage.name);
      } else if command == "next" {
        var next := NextStage(stages, stage, from).value;
        stage := next;
        Log(next.name);
      } else if command == "skip" {
        var next := NextStage(stages, stage, from).value;
        stage := next;
        Log("skipped to: " + next.name);
      } else {
        stage := FindByName(stages, command).value;
        Log(command);
      }
      if IsTerminal(stage.name) {
        Archive();
      } else {
        Activate();
      }
    }
  }

  /** The values of one `fellow_opportunities` row. */
  datatype Link = Link(fellowId: FellowId, opportunityId: OpportunityId, stage: Stage, active: bool, deleted: bool, logs: seq<String>) {
    /** This row links `fellowId` to `opportunityId`. */
    predicate Matches(opportunityId: OpportunityId, fellowId: FellowId) {
      this.opportunityId == opportunityId && this.fellowId == fellowId
    }
  }

  /** The default of the `active` column for a newly created row. */
  const ActiveByDefault: bool := true

  /** The row that `create!(fellow_id:, opportunity_id:, opportunity_stage:)` inserts. */
  function NewLink(fellowId: FellowId, opportunityId: OpportunityId, stage: Stage): Link {
    Link(fellowId, opportunityId, stage, ActiveByDefault, false, [])
  }

  /** The values of all rows, in table order. */
  function Snapshot(rows: seq<FellowOpportunity>): (r: seq<Link>)
    reads rows
    ensures |r| == |rows| && forall k :: 0 <= k < |rows| ==> r[k] == rows[k].Value()
  {
    seq(|rows|, k reads rows requires 0 <= k < |rows| => rows[k].Value())
  }

  /** The unique index on (fellow_id, opportunity_id): one row per fellow and opportunity. */
  predicate UniquePairs(links: seq<Link>) {
    forall i, j :: 0 <= i < j < |links| ==>
      links[i].fellowId != links[j].fellowId || links[i].opportunityId != links[j].opportunityId
  }

  /** `FellowOpportunity.with_deleted.find_by(opportunity_id:, fellow_id:)`, as a row index. */
  function FindWithDeleted(links: seq<Link>, opportunityId: OpportunityId, fellowId: FellowId): (r: Option<nat>)
    ensures r.None? <==> forall i :: 0 <= i < |links| ==> !links[i].Matches(opportunityId, fellowId)
    ensures r.Some? ==> r.value < |links| && links[r.value].Matches(opportunityId, fellowId)
  {
    if links == [] then None
    else if links[0].Matches(opportunityId, fellowId) then Some(0)
    else
      match FindWithDeleted(links[1..], opportunityId, fellowId)
      case None => None
      case Some(k) => Some(k + 1)
  }

  /** With the unique index, the row found is the only row of that pair. */
  lemma FindWithDeletedUnique(links: seq<Link>, opportunityId: OpportunityId, fellowId: FellowId, k: nat)
    requires UniquePairs(links) && k < |links| && links[k].Matches(opportunityId, fellowId)
    ensures FindWithDeleted(links, opportunityId, fellowId) == Some(k)
  {
  }

  /** Some live (not soft-deleted) row links `fellowId` to `opportunityId`. */
  ghost predicate HasLiveLink(links: seq<Link>, opportunityId: OpportunityId, fellowId: FellowId) {
    exists i :: 0 <= i < |links| && links[i].Matches(opportunityId, fellowId) && !links[i].deleted
  }

  /** The live rows' fellow ids for one opportunity: `opportunity.fellow_opportunities.pluck(:fellow_id)`. */
  function LinkedFellowIds(links: seq<Link>, opportunityId: OpportunityId): (r: seq<FellowId>)
    ensures forall f :: f in r <==> HasLiveLink(links, opportunityId, f)
  {
    if links == [] then []
    else
      var rest := LinkedFellowIds(links[1..], opportunityId);
      assert forall i :: 1 <= i < |links| ==> links[i] == links[1..][i - 1];
      if links[0].opportunityId == opportunityId && !links[0].deleted then [links[0].fellowId] + rest else rest
  }

  /** The `fellow_opportunities` table, soft-deleted rows included. */
  class FellowOpportunityTable {
    var rows: seq<FellowOpportunity>

    ghost predicate Valid()
      reads this, rows
    {
      UniquePairs(Snapshot(rows))
    }

    constructor ()
      ensures Valid() && rows == []
    {
      rows := [];
    }

    /** `find_by(...).restore` on row `k`: it and only it becomes live again. */
    method RestoreAt(k: nat)
      requires Valid() && k < |rows|
      modifies {rows[k]}`deleted
      ensures Valid() && rows == old(rows)
      ensures Snapshot(rows) == old(Snapshot(rows))[k := old(Snapshot(rows))[k].(deleted := false)]
    {
      ghost var before := Snapshot(rows);
      rows[k].Restore();
      forall j | 0 <= j < |rows| && j != k ensures rows[j] != rows[k] {
        assert before[j].fellowId != before[k].fellowId || before[j].opportunityId != before[k].opportunityId;
      }
      assert Snapshot(rows) == before[k := before[k].(deleted := false)];
    }

    /**
     * `create!(fellow_id:, opportunity_id:, opportunity_stage:)` for a pair
     * with no row yet, so that the uniqueness validation passes.
     */
    method Create(fellowId: FellowId, opportunityId: OpportunityId, stage: Stage) returns (link: FellowOpportunity)
      requires Valid() && FindWithDeleted(Snapshot(rows), opportunityId, fellowId).None?
      modifies this`rows
      ensures Valid() && rows == old(rows) + [link] && fresh(link)
      ensures Snapshot(rows) == old(Snapshot(rows)) + [NewLink(fellowId, opportunityId, stage)]
    {
      ghost var before := Snapshot(rows);
      link := new FellowOpportunity(fellowId, opportunityId, stage);
      rows := rows + [link];
      assert Snapshot(rows) == before + [NewLink(fellowId, opportunityId, stage)];
    }
  }
}
