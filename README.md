# career-mgr core, modelled in Dafny

career-mgr is a Rails application that matches program graduates ("fellows") with job opportunities. This project models four parts of it:

- **Candidate selection for an opportunity** (`app/models/opportunity.rb`). A fellow is a candidate when they share an interest or an industry with the opportunity, and share a metro with it too. A fellow who already has a live pipeline row for the opportunity is dropped. A search string can replace the opportunity's own tags, kind by kind. The result is memoised on the record. `candidate_ids=` puts the chosen fellows into the pipeline. It restores a soft-deleted row when one exists, and otherwise creates a row at the stage with position 0. The `;`-separated tag strings read and write the tag associations.
- **The hiring pipeline** (`app/models/fellow_opportunity.rb`). The stage state machine of `update_stage` is modelled: 'no change', 'next', 'skip' and a named stage. Each call writes one log entry. The `active` flag ends up false exactly at the three terminal stages. `activate!` and `archive!` are modelled, and so is the rule of one row per fellow and opportunity.
- **Fellow helpers** (`app/models/fellow.rb`):
  - rating labels to ranks;
  - string clean-up;
  - name and graduation formatting;
  - the portal page address;
  - career-step completion;
  - key generation;
  - memoised distances and the nearest distance;
  - the validations;
  - the rule that CSV import skips a row whose semester is invalid.
- **User matching** (`lib/fellow_user_matcher.rb`). A user account is linked to the first fellow whose contact has the same email.

The model is organised like this:

- Records, tables and in-memory state that Ruby updates in place are Dafny classes:
  - `FellowOpportunity` and the `fellow_opportunities` table;
  - `Opportunity`, with its tag associations and its `@candidates` memo;
  - `Fellow`;
  - the users and fellows tables of the matcher.
- Pure computations are functions over datatypes.
- Each method that changes state states its whole new state. Most do it in terms of a pure function of the old state, for example `Snapshot(table.rows) == EnrolAll(old(Snapshot(table.rows)), ...)`. The properties the application relies on are then proved about those functions as lemmas.
- `NearestDistance` is the exception. It states its new memo by its keys (the old keys plus the listed codes) and by `MemoSound`, which fixes the value under every key.

The Ruby library behaviour the core uses is modelled in two helper modules:

- `RubyString`: `split(';')`, `join(';')`, `strip`, `downcase`, `upcase`, `gsub(/\s+/, ...)` and `to_s`.
- `RubyArray`: `&`, `uniq`, `-`, `index`, `compact`, `min`, `map` and `select`.

## Model

| member | source | states |
|---|---|---|
| Opportunities.CandidateListFacts | app/models/opportunity.rb:24-36 | The list that `candidates` builds has no duplicates. It holds exactly the fellows in (interests ∪ industries) ∩ metros and not in the linked list. It is empty when the metro list is empty. |
| Opportunities.Opportunity.CandidateIds | app/models/opportunity.rb:24-36 | The candidate id list has no duplicates. A fellow is in it iff they match on interest or industry, match on metro, and have no live row for this opportunity. No metro match gives no candidates. |
| Opportunities.Opportunity.CandidateMembership | app/models/opportunity.rb:26-36 | Membership in the four intermediate lists is the same as the candidate rule. |
| Opportunities.Opportunity.Candidates | app/models/opportunity.rb:20-39 | On the first call the memo is set, and the result holds exactly the existing fellows that are candidates. Every later call returns the memo unchanged, whatever the search parameters. |
| Opportunities.Opportunity.SelectedTagIds | app/models/opportunity.rb:41-69 | With a search string, the tags whose names it lists are selected. Without one, the opportunity's own tags of that kind are selected. |
| Opportunities.Opportunity.FellowIdsForKind | app/models/opportunity.rb:41-69 | A fellow is listed iff a join row links them to one of the selected tags. |
| Opportunities.FellowIdsFor | app/models/opportunity.rb:48 | A fellow is listed iff a join row links them to one of the given tags. |
| Opportunities.IdsNamed | app/models/opportunity.rb:88 | `where(name: names).pluck(:id)` yields exactly the ids of the tags whose name is listed. |
| Opportunities.NamesOf | app/models/opportunity.rb:84 | `pluck(:name)` of an association yields exactly the names of its tags. |
| Opportunities.Opportunity.TagString | app/models/opportunity.rb:83-85 | For a well-formed tag table, splitting the tag string gives exactly the names of the associated tags. |
| Opportunities.Opportunity.SetTagString | app/models/opportunity.rb:87-89 | Afterwards the association of that kind holds exactly the known tags named in the string. The other two kinds and the memo are unchanged. |
| Opportunities.SplitTagString | app/models/opportunity.rb:83-105 | For a well-formed tag table, splitting the joined names gives back the names list. |
| Opportunities.TagIdsRoundTrip | app/models/opportunity.rb:83-105 | Getter then setter: assigning a tag string read from an association gives back the same (known) tag ids. |
| Opportunities.TagNamesRoundTrip | app/models/opportunity.rb:83-105 | Setter then getter: the string read back names exactly the known tags among those assigned. |
| Opportunities.Opportunity.EnrolCandidate | app/models/opportunity.rb:74-79 | One enrolment completes `Enrol` on the table's values. Uniqueness per fellow and opportunity is kept, existing rows stay in place, and new rows are fresh. |
| Opportunities.EnrolOutcome | app/models/opportunity.rb:75-79 | One enrolment succeeds iff the fellow already has a row or a stage exists. On failure the table is unchanged. On success the fellow has a live row. |
| Opportunities.Opportunity.SetCandidateIds | app/models/opportunity.rb:71-81 | The loop computes `EnrolAll` over the list with the stage at position 0. It keeps uniqueness and existing rows. |
| Opportunities.EnrolAllChanges | app/models/opportunity.rb:71-81 | Rows before the call keep their keys. Only rows of listed fellows change, and only by being restored. Every new row belongs to a listed fellow who had no row, and is at the initial stage, active by default, with no logs. |
| Opportunities.EnrolAllOk | app/models/opportunity.rb:71-81 | The call succeeds iff a position-0 stage exists or every listed fellow already has a row. |
| Opportunities.EnrolAllLive | app/models/opportunity.rb:71-81 | After a successful call every listed fellow has a live row for the opportunity. |
| Opportunities.EnrolAllStops | app/models/opportunity.rb:71-81 | A failed call had no stage, and stopped at a listed fellow with no row. Every fellow listed before that one has a live row. |
| Opportunities.EnrolAllUnique | app/models/opportunity.rb:74-79 | At most one row per fellow and opportunity, before and after. |
| Opportunities.EnrolAllLiveNoOp | app/models/opportunity.rb:74-77 | When every listed fellow already has a live row, the call changes nothing and succeeds. |
| Opportunities.EnrolAllIdempotent | app/models/opportunity.rb:71-81 | Assigning the same list again after a successful call changes nothing. |
| Opportunities.EnrolAllKeepsLive | app/models/opportunity.rb:71-81 | A row that was live stays live. |
| Opportunities.FindBySameKeys | app/models/opportunity.rb:113-115 | The `archived_fellow_opp` lookup depends only on the rows' keys. |
| Pipeline.FindWithDeleted | app/models/opportunity.rb:113-115 | Returns a row of the pair, soft-deleted rows included, or None iff there is no such row. `find_by` promises no order; under the unique index there is at most one such row (`FindWithDeletedUnique`). |
| Pipeline.FindWithDeletedUnique | app/models/fellow_opportunity.rb:13 | Under the uniqueness rule, the row found is the only row of that fellow and opportunity. |
| Pipeline.LinkedFellowIds | app/models/opportunity.rb:36 | Lists exactly the fellows with a live row for the opportunity. |
| Pipeline.FellowOpportunityTable.Create | app/models/opportunity.rb:78 | Appends one fresh row at the given stage, active by default, not deleted, with no logs. Requires that the pair has no row, which is what the uniqueness validation demands. Uniqueness is kept. |
| Pipeline.FellowOpportunityTable.RestoreAt | app/models/opportunity.rb:75-76 | Clears the soft deletion of row k only. The rows and uniqueness are kept. |
| Pipeline.FellowOpportunity.Restore | app/models/opportunity.rb:76 | Only the deleted flag changes, to false. |
| Pipeline.FellowOpportunity.constructor | app/models/opportunity.rb:78 | A new row holds the fellow, opportunity and stage, is active by default, is not deleted, and has no logs. |
| Pipeline.FindByName | app/models/fellow_opportunity.rb:32 | Returns a stage with that name, or None iff no stage has it. |
| Pipeline.FindByPosition | app/models/fellow_opportunity.rb:79 | Returns a stage at that position, or None iff there is none. |
| Pipeline.NextStage | app/models/fellow_opportunity.rb:72-80 | The stage at position + 1, counting from the `from` stage when given and from the current stage otherwise. None iff no stage is there. |
| Pipeline.FellowOpportunity.Log | app/models/fellow_opportunity.rb:20-22 | Appends exactly one log entry with the message. |
| Pipeline.FellowOpportunity.Activate | app/models/fellow_opportunity.rb:62-64 | `active` becomes true. Nothing else may change. |
| Pipeline.FellowOpportunity.Archive | app/models/fellow_opportunity.rb:66-68 | `active` becomes false. Nothing else may change. |
| Pipeline.FellowOpportunity.UpdateStage | app/models/fellow_opportunity.rb:28-60 | The four cases, with exactly one log entry each time, and `active` false iff the new stage is terminal. 'no change' moves to `from` (or stays put) and logs the stage name. 'next' moves to the next stage and logs its name. 'skip' moves to the next stage and logs "skipped to: " and its name. Any other command moves to the stage of that name and logs the command. |
| Fellows.StrengthFor | app/models/fellow.rb:86-88 | Returns an index below 5 whose label is the input, or None iff the input is not a label (or nil). |
| Fellows.ReadinessFor | app/models/fellow.rb:90-92 | Returns an index below 5 whose label is the input, or None iff the input is not a label (or nil). |
| Fellows.LabelsRank | app/models/fellow.rb:86-92 | Each of the five labels reads back as its own rank. |
| Fellows.EnsureString | app/models/fellow.rb:98-100 | nil gives "". Any result has no leading or trailing whitespace. |
| Fellows.EnsureStringStrips | app/models/fellow.rb:98-100 | The result is the input with its leading and trailing whitespace runs cut off. |
| Fellows.EnsureStringIdempotent | app/models/fellow.rb:98-100 | Cleaning a cleaned string changes nothing. |
| Fellows.SpaceJoin | app/models/fellow.rb:115-121 | The result is trimmed. With one side empty it is the other side stripped. Two non-empty trimmed sides are joined by exactly one space. |
| Fellows.SpaceJoinStrips | app/models/fellow.rb:115-121 | For any parts, untrimmed ones included, the result is `a + " " + b` with its leading and trailing whitespace removed, which fixes its value (so `("  ", "Smith")` gives `"Smith"` and `("John ", "Smith")` gives `"John  Smith"`). |
| Fellows.Fellow.FullName | app/models/fellow.rb:115-117 | `full_name` as the space join of the first and last names, stripped: trimmed, the other name stripped when one is missing or empty, and one space between two trimmed names. `FullNameStrips` gives the value for untrimmed names. |
| Fellows.Fellow.FullNameStrips | app/models/fellow.rb:115-117 | The full name is `"first last"`, with `nil` read as `''`, without its leading and trailing whitespace, whatever whitespace the names carry. |
| Fellows.Fellow.Graduation | app/models/fellow.rb:119-121 | `graduation` as the space join of the semester and the year, stripped: trimmed, the stripped semester without a year, the year's digits without a semester, and one space between a trimmed semester and the year. `GraduationStrips` gives the value for an untrimmed semester. |
| Fellows.Fellow.GraduationStrips | app/models/fellow.rb:119-121 | The graduation is `"semester year"`, with `nil` read as `''`, without its leading and trailing whitespace, whatever whitespace the semester carries. |
| Fellows.Slug | app/models/fellow.rb:175 | The page slug has no whitespace and no capitals. A name without whitespace gives its downcased self, and a name already clean gives itself. |
| Fellows.SlugOfRun | app/models/fellow.rb:175 | A whitespace run after a word becomes exactly one `-` after the downcased word: `Slug(a + w + b) == Downcase(a) + "-" + Slug(b)`. Together with the clean case, this fixes the slug of every name, run by run. |
| Fellows.PortalPageUrl | app/models/fellow.rb:172-177 | nil without a portal course iff there is none. Otherwise the address is canvas_url/courses/id/pages/slug. |
| Fellows.PortalPageUrlSlugged | app/models/fellow.rb:172-177 | The page part of the address is a slug, and slugging the page name first gives the same address. |
| Fellows.CompletedPositions | app/models/fellow.rb:151-153 | Lists exactly the positions of the completed steps. |
| Fellows.Fellow.CompletedCareerSteps | app/models/fellow.rb:151-153 | Lists exactly the positions of the fellow's completed steps. |
| Fellows.MarkCompleted | app/models/fellow.rb:155-158 | Every step keeps its position and name, and is completed iff its position is in the list. |
| Fellows.Fellow.SetCompletedCareerSteps | app/models/fellow.rb:155-158 | The new steps are `MarkCompleted` of the old ones (clear all, then complete the listed ones). |
| Fellows.CompletedRoundTrip | app/models/fellow.rb:151-158 | Setter then getter: the completed positions are exactly the assigned positions that some step has. |
| Fellows.NewKey | app/models/fellow.rb:318-319 | The key is the two initials upcased, then the year mod 100 (0 without a year) in decimal, then at most four digest characters upcased. It has no lower-case letter. |
| Fellows.NewKeyLength | app/models/fellow.rb:33 | With a year allowed by the validation and a full digest, the key has 8 characters, with the year's last two digits at positions 2-3; reading those two digits back gives the year minus 2000. |
| Fellows.Fellow.GenerateKey | app/models/fellow.rb:314-320 | An existing key is left unchanged. Otherwise the key becomes `NewKey` of the names, the year and the count. |
| Fellows.Fellow.ValidRecordKey | app/models/fellow.rb:30-34 | A record that passes the validations has non-empty first and last names, as `generate_key` needs. With a year and a digest of at least four characters it gets an 8-character key. |
| Fellows.Fellow.DistanceFrom | app/models/fellow.rb:127-133 | A remembered answer is returned unchanged. Without a postal code: nil, and nothing is remembered. Otherwise the distance is computed and remembered. A sound memo stays sound. |
| Fellows.Distances | app/models/fellow.rb:124 | One distance per postal code, in order. |
| Fellows.Nearest | app/models/fellow.rb:124 | The least non-nil distance, or nil iff every distance is nil. |
| Fellows.Fellow.NearestDistance | app/models/fellow.rb:123-125 | Returns `Nearest` of the distances to every code in the list. The memo stays sound. Without a postal code of the fellow's own it is unchanged; otherwise its keys become the old keys plus every listed code. |
| Fellows.Import | app/models/fellow.rb:48-84 | The attributes saved are those of the rows before the first row without a 'Grad FY' cell, in order, with every row whose semester is invalid skipped. `completed` is true iff no row lacks that cell. |
| Fellows.ReadableRows | app/models/fellow.rb:64 | The index of the first row without a 'Grad FY' cell, where `nil[2..4]` raises and the import ends, or the number of rows: every row before it has the cell, and the row at it does not. |
| Fellows.HasFiscalYear | app/models/fellow.rb:64 | Definition: the row has a 'Grad FY' cell, so `data['Grad FY'][2..4]` does not raise. |
| Fellows.Attributes | app/models/fellow.rb:56-78 | Definition: the attributes hash built from a row's cells. Text cells go through `EnsureString`, and rating cells through `StrengthFor`/`ReadinessFor`. |
| Fellows.Accepted | app/models/fellow.rb:80 | Definition of the skip rule: the semester attribute is present and in the valid list. |
| Fellows.Imported | app/models/fellow.rb:49-82 | Definition: the `Attributes` of each row, in order, kept when `Accepted`, as `Import` is proved to compute. `ImportedExactly` states what it contains. |
| Fellows.ImportedExactly | app/models/fellow.rb:80 | A row's attributes are saved iff its semester is in the valid list. No more records are saved than there are rows. |
| UserMatching.FindUser | lib/fellow_user_matcher.rb:4 | Returns the first user with the email, or None iff there is none. |
| UserMatching.FindFellow | lib/fellow_user_matcher.rb:5 | Returns the first live fellow whose contact has the email, or None iff there is none. |
| UserMatching.MatchedNeedsBoth | lib/fellow_user_matcher.rb:7 | Without a user or without a fellow for the email, nothing changes. |
| UserMatching.MatchedLinks | lib/fellow_user_matcher.rb:7-9 | With both, the first matching fellow points at the user and the user is marked as a fellow. Every other user and fellow is unchanged. |
| UserMatching.MatchedIdempotent | lib/fellow_user_matcher.rb:3-11 | Matching the same email twice is the same as matching it once. |
| UserMatching.Accounts.Match | lib/fellow_user_matcher.rb:3-11 | The stored tables become `Matched` of the old tables. |
| RubyString.SplitJoin | app/models/opportunity.rb:84-88 | `split(';')` undoes `join(';')` on non-empty names without `;`. |
| RubyString.StripIdempotent | app/models/fellow.rb:99 | Stripping twice is stripping once. |
| RubyString.StripPadded | app/models/fellow.rb:116 | Surrounding whitespace is dropped by `strip`. |
| RubyString.ReplaceSpaceRunsOfPadded | app/models/fellow.rb:175 | `gsub(/\s+/, '-')` turns a whole whitespace run into a single `-`. |
| Fellows.Fellow.ValidRecord | app/models/fellow.rb:30-34 | Definition of the validations other than the float ranges of `gpa` and `efficacy_score`. The first and last names are present. The semester is nil or a valid one. Both years are nil or strictly between 2010 and 2050. `ValidRecordKey` proves what `generate_key` gets from it. |
| Fellows.YearInRange | app/models/fellow.rb:33-34 | Definition: nil, or an integer strictly between 2010 and 2050. |
| Fellows.Present | app/models/fellow.rb:30 | Definition of `presence: true`: not nil and not `Blank`. |
| Fellows.Blank | app/models/fellow.rb:30 | Definition of `blank?` on a string: every character is whitespace. |
| Fellows.Fellow.MemoSound | app/models/fellow.rb:128-132 | Definition: every remembered distance is the one the fellow's own postal code gives. `DistanceFrom` and `NearestDistance` keep it. |
| Fellows.DistanceOf | app/models/fellow.rb:129-132 | Definition: nil without a postal code of the fellow's own, otherwise the distance from it. |
| Fellows.LabelIndex | app/models/fellow.rb:86-92 | `labels.index(s)`: an index whose label is the input, or None iff the input is nil or not a label. |
| Fellows.KeySource | app/models/fellow.rb:318 | Definition: the digest input, with the names, year and count joined by `-`. |
| Fellows.Take | app/models/fellow.rb:318 | `s[0, 4]`: a prefix of the string of length min(4, length). |
| Fellows.YearString | app/models/fellow.rb:120 | Definition: `graduation_year.to_s`, or "" for nil, as `join` renders it. |
| Opportunities.Enrol | app/models/opportunity.rb:75-79 | Definition of one step: restore the row `archived_fellow_opp` finds, else create one at the initial stage, else fail (`create!` raises) and change nothing. `EnrolChanges` and `EnrolOutcome` state its effects. |
| Opportunities.EnrolAll | app/models/opportunity.rb:74-80 | Definition of the loop: `Enrol` each listed fellow in turn, stopping at the first failure. The `EnrolAll*` lemmas state its effects. |
| Opportunities.EnrolChanges | app/models/opportunity.rb:75-79 | One step keeps or restores each old row, with restoration only for this fellow. It adds at most rows at the initial stage for this fellow, when it had none. |
| Opportunities.Opportunity.IsCandidate | app/models/opportunity.rb:26-36 | Definition of the candidate rule: an interest or industry match, a metro match, and no live row for this opportunity. |
| Opportunities.Opportunity.MatchesOn | app/models/opportunity.rb:41-69 | Definition: a join row of that kind links the fellow to one of the selected tags. |
| Opportunities.Opportunity.TagIds | app/models/opportunity.rb:83-105 | Definition: the opportunity's tag ids of one kind (`industry_ids`, `interest_ids`, `metro_ids`). |
| Opportunities.HasTagIn | app/models/opportunity.rb:48 | Definition: some join row links the fellow to one of the tags. |
| Opportunities.WellFormedTags | app/models/opportunity.rb:83-105 | Definition of the tag tables for which the `;` strings round-trip: names non-empty, `;`-free and unique, and ids unique. |
| Pipeline.CanUpdateStage | app/models/fellow_opportunity.rb:28-51 | Definition of when `update_stage` does not raise. Every stage name it looks up exists, and for 'next' and 'skip' so does the following stage. |
| Pipeline.IsTerminal | app/models/fellow_opportunity.rb:55 | Definition: the stage name is 'fellow accepted', 'fellow declined' or 'employer declined'. |
| Pipeline.BasePosition | app/models/fellow_opportunity.rb:73-77 | Definition: the position of the `from` stage when given, else of the current stage. |
| Pipeline.FellowOpportunity.ActiveMatchesStage | app/models/fellow_opportunity.rb:54-59 | Definition: `active` is false exactly at a terminal stage. `UpdateStage` establishes it. |
| Pipeline.UniquePairs | app/models/fellow_opportunity.rb:13 | Definition of the uniqueness rule: no two rows share a fellow and an opportunity. |
| Pipeline.FellowOpportunityTable.Valid | app/models/fellow_opportunity.rb:13 | Definition: the table's rows satisfy `UniquePairs`. Every table method keeps it. |
| Pipeline.HasLiveLink | app/models/opportunity.rb:36 | Definition: a row that is not soft-deleted links the fellow to the opportunity. |
| Pipeline.NewLink | app/models/opportunity.rb:78 | Definition of the row `create!` inserts: the given stage, active by default, not deleted, no logs. |
| UserMatching.Matched | lib/fellow_user_matcher.rb:7-9 | Definition of the effect of `match`: with both a user and a fellow for the email, that fellow points at the user and the user is a fellow. Otherwise nothing changes. `MatchedLinks`, `MatchedNeedsBoth` and `MatchedIdempotent` state its properties. |
| UserMatching.HasContactEmail | lib/fellow_user_matcher.rb:5 | Definition: the fellow is not soft-deleted and its contact has the email. |
| RubyString.Split | app/models/opportunity.rb:88 | Definition of `split(';')`: the `;`-separated fields, with trailing empty fields dropped. `SplitJoin` states its round trip. |
| RubyString.Join | app/models/opportunity.rb:84 | Definition of `join(';')`: the names with one `;` between neighbours. `SplitJoin` states that `Split` undoes it. |
| RubyString.Strip | app/models/fellow.rb:99 | The result has no leading or trailing whitespace. `StripIsSlice` states that it is the input with its end runs cut off. |
| RubyString.StripIsSlice | app/models/fellow.rb:99 | `strip` removes exactly the leading and trailing whitespace runs and keeps what lies between. |
| RubyString.Downcase | app/models/fellow.rb:175 | Same length, and each character downcased. |
| RubyString.Upcase | app/models/fellow.rb:319 | Same length, and each character upcased. |
| RubyString.ReplaceSpaceRuns | app/models/fellow.rb:175 | `gsub(/\s+/, sub)`: no longer than the input; every character is `sub` or a non-space from the input; the identity on a string without whitespace. `ReplaceSpaceRunsOfPadded` states the run rule. |
| RubyString.DecimalValue | app/models/fellow.rb:319 | Reading back the decimal digits that `to_s` prints for a non-negative number gives that number. |
| RubyString.IntToS | app/models/fellow.rb:120 | `to_s`: the decimal digits, with a leading `-` for a negative number. |
| RubyArray.Uniq | app/models/opportunity.rb:33 | `uniq!`: no duplicates, the same elements, and no longer. |
| RubyArray.Intersect | app/models/opportunity.rb:31 | `&`: no duplicates, and exactly the elements in both. |
| RubyArray.Difference | app/models/opportunity.rb:36 | `-`: exactly the elements of the left side not in the right, no longer, and duplicate-free when the left side is. |
| RubyArray.IndexOf | app/models/fellow.rb:87 | `index`: the first position of the element, or None iff it is absent. |
| RubyArray.Compact | app/models/fellow.rb:124 | `compact`: exactly the present values, and no longer. |
| RubyArray.Min | app/models/fellow.rb:124 | `min`: None iff empty, otherwise an element no larger than any other. |
| RubyArray.Map | app/models/fellow.rb:49-78 | `map`: same length, with each element mapped. |
| RubyArray.Select | app/models/fellow.rb:80 | Definition of `select`, for the `next unless` filter: the accepted elements, in order. |
| RubyArray.SelectExactly | app/models/fellow.rb:80 | `select` keeps exactly the accepted elements, and is no longer. |

## Left out

- The Canvas LMS is not modelled: `canvas_url` and `portal_course_id` are parameters of `PortalPageUrl`.
- MD5 is a parameter. `Digest::MD5` is a foreign library.
- `PostalCode.distance` is a parameter. It is a database lookup with floating-point geometry, and distances are modelled as `Option<int>`.
- CSV parsing itself is a foreign library, and the `skip_lines` pattern is not modelled. `Import` takes rows that are already parsed.
- `Site.cohort_for` and the cohort's postal code are not modelled. Neither is the crash at fellow.rb line 61 when no cohort matches. That crash happens before the skip rule is applied.
- The float range validations of `gpa` (0.0 to 4.0) and `efficacy_score` (0.0 to 1.0) at fellow.rb lines 36-37 are not part of `ValidRecord`, because floating point is not modelled.
- The import attributes that need number parsing are not modelled: `gpa`, `grade`, `attendance` and `nps_response`. They are floats or Ruby's lenient `to_i`.
- `graduation_fiscal_year` is modelled only for its crash. It is `2000 + data['Grad FY'][2..4].to_i`, and a row without a 'Grad FY' cell raises there, ending the import (`ReadableRows`). The value itself is not an attribute of the model, because Ruby's lenient `to_i` is not modelled.
- `create_or_update` is not modelled. `Import` returns the attribute records it would pass.
- `unique_count` is a parameter of `GenerateKey`. It comes from a database count.
- `Course::VALID_SEMESTERS` is a parameter. `Course` is not part of this model.
- The `Taggable` concern is not part of this model, so the meaning of its `fellow_ids_for(selected)` is an assumption: it returns the fellow ids of the join rows whose tag is among the selected ones. `Opportunities.FellowIdsFor` models that assumption. Tags and join tables are modelled as rows in a `Catalog`.
- `Fellow.where(id: ...)` returns a lazy relation. It is modelled as the set of existing fellows it would load.
- `candidates` is memoised on the Ruby object, which is modelled as an `Opportunity` field. The candidate id list is fixed at the first call, as in the source, because the tag queries and `pluck` run eagerly. The model also fixes, at that call, which of those fellows exist. Ruby's memo is a lazy `Fellow.where(id: ...)` relation, and its soft-delete filter runs only when the relation is loaded, so a fellow soft-deleted or restored between the first call and the load is dropped or added in the source but not in the model.
- Callbacks are not modelled: `after_save :attempt_fellow_match`, `generate_career_steps` and `select_all_opportunity_types`. Neither are the mailers. They are side effects outside the named core, and `generate_career_steps` reads a YAML file.
- The `User` model is not part of this model. `user.fellow = fellow` is modelled as setting the fellow's `user_id`. The `has_one` effect of clearing another fellow's `user_id` is not modelled.
- db/schema.rb declares neither the `active` column nor the `deleted_at` column of `fellow_opportunities`. The default of `active` is the constant `ActiveByDefault`, taken as true.
- The `belongs_to` existence checks are not modelled: a missing fellow or opportunity would make `create!` raise.
- Case mapping (`downcase`, `upcase`) covers ASCII letters only.
- `strip`, `blank?` and `\s` cover ASCII whitespace only. `strip` includes NUL, as Ruby's does.
- Pipeline.FellowOpportunity.UpdateStage: requires that every stage it looks up exists. In the source a missing stage makes Ruby call a method on nil and raise, and that raise is not modelled.
- Opportunities.Opportunity.SetCandidateIds: `create!` raising for want of a position-0 stage is modelled as `ok == false`, with the rows created before it kept (there is no transaction).
- Fellows.Fellow.NearestDistance: requires a sound memo. A memo left stale after the fellow's postal code changes is not modelled.
- Fellows.Fellow.GenerateKey: requires present first and last names. The presence validation runs before `before_create`, so a blank name never reaches it.
- Fellows.Fellow.DistanceFrom: `assumed_postal_code` (fellow.rb lines 135-137) falls back to the cohort's postal code. That fallback is never reached when the contact has a postal code, so it is not modelled.
- Fellows.EnsureString: its contract states only nil-to-empty and trimming. That the result is the stripped input is stated separately, by `EnsureStringStrips`.
