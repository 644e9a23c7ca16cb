/**
 * A fellow's field helpers: rating labels, string clean-up, name and
 * graduation formatting, the portal page address, career-step
 * completion, key generation, distances and the import skip rule.
 */
module Fellows {
  import opened Wrappers
  import opened RubyString
  import opened RubyArray

  // ---------------------------------------------------------------------------
  // Rating labels
  // ---------------------------------------------------------------------------

  const StrengthLabels: seq<String> :=
    ["Not at all Strongly", "Somewhat Strongly", "Strongly", "Very Strongly", "Extremely Strongly"]

  const ReadinessLabels: seq<String> :=
    ["Not at all Ready", "Slightly Ready", "Moderately Ready", "Mostly Ready", "Completely Ready"]

  /** `labels.index(s)`; a missing cell (`nil`) is no label. */
  function LabelIndex(labels: seq<String>, s: Option<String>): (r: Option<nat>)
    ensures r.None? <==> s.None? || s.value !in labels
    ensures r.Some? ==> r.value < |labels| && Some(labels[r.value]) == s
  {
    if s.None? then None else IndexOf(labels, s.value)
  }

  /** `Fellow.strength_for` */
  function StrengthFor(s: Option<String>): (r: Option<nat>)
    ensures r.None? <==> s.None? || s.value !in StrengthLabels
    ensures r.Some? ==> r.value < 5 && s == Some(StrengthLabels[r.value])
  {
    LabelIndex(StrengthLabels, s)
  }

  /** `Fellow.readiness_for` */
  function ReadinessFor(s: Option<String>): (r: Option<nat>)
    ensures r.None? <==> s.None? || s.value !in ReadinessLabels
    ensures r.Some? ==> r.value < 5 && s == Some(ReadinessLabels[r.value])
  {
    LabelIndex(ReadinessLabels, s)
  }

  /** Each label reads back as its own rank. */
  lemma LabelsRank(i: nat)
    requires i < 5
    ensures StrengthFor(Some(StrengthLabels[i])) == Some(i)
    ensures ReadinessFor(Some(ReadinessLabels[i])) == Some(i)
  {
    assert NoDuplicates(StrengthLabels);
    assert NoDuplicates(ReadinessLabels);
    IndexOfDistinct(StrengthLabels, i);
    IndexOfDistinct(ReadinessLabels, i);
  }

  // ---------------------------------------------------------------------------
  // Strings
  // ---------------------------------------------------------------------------

  /** `Fellow.ensure_string`: a missing cell is the empty string, any other is stripped. */
  function EnsureString(s: Option<String>): (r: String)
    ensures s.None? ==> r == ""
    ensures Trimmed(r)
  {
    Strip(s.GetOr(""))
  }

  /** An ensured string is the cell without its leading and trailing whitespace. */
  lemma EnsureStringStrips(s: Option<String>)
    ensures StrippedFrom(s.GetOr(""), EnsureString(s))
  {
    StripIsSlice(s.GetOr(""));
  }

  /** An ensured string is its own ensured string. */
  lemma EnsureStringIdempotent(s: Option<String>)
    ensures EnsureString(Some(EnsureString(s))) == EnsureString(s)
  {
    StripIdempotent(s.GetOr(""));
  }

  /**
   * `[a, b].join(' ').strip`, with `nil` parts already read as `''`: a
   * missing part leaves no stray space, and two trimmed parts are joined by
   * exactly one space.
   */
  function SpaceJoin(a: String, b: String): (r: String)
    ensures Trimmed(r)
    ensures a == [] ==> r == Strip(b)
    ensures b == [] ==> r == Strip(a)
    ensures a != [] && b != [] && Trimmed(a) && Trimmed(b) ==> r == a + " " + b
  {
    SpaceJoinFacts(a, b);
    Strip(a + " " + b)
  }

  /** Whatever the parts hold, the join is `a + " " + b` without its whitespace end-runs. */
  lemma SpaceJoinStrips(a: String, b: String)
    ensures StrippedFrom(a + " " + b, SpaceJoin(a, b))
  {
    StripIsSlice(a + " " + b);
  }

  lemma SpaceJoinFacts(a: String, b: String)
    ensures a == [] ==> Strip(a + " " + b) == Strip(b)
    ensures b == [] ==> Strip(a + " " + b) == Strip(a)
    ensures a != [] && b != [] && Trimmed(a) && Trimmed(b) ==> Strip(a + " " + b) == a + " " + b
  {
    if a == [] {
      assert a + " " + b == " " + b + "";
      StripPadded(" ", b, "");
    }
    if b == [] {
      assert a + " " + b == "" + a + " ";
      StripPadded("", a, " ");
    }
    if a != [] && b != [] && Trimmed(a) && Trimmed(b) {
      SpaceJoinTrimmed(a, b);
    }
  }

  lemma SpaceJoinTrimmed(a: String, b: String)
    requires a != [] && b != [] && Trimmed(a) && Trimmed(b)
    ensures Strip(a + " " + b) == a + " " + b
  {
    var s := a + " " + b;
    assert s[0] == a[0] && s[|s| - 1] == b[|b| - 1];
    StripTrimmed(s);
  }

  /** `graduation_year.to_s`, or `''` for `nil`. */
  function YearString(year: Option<int>): String {
    if year.Some? then IntToS(year.value) else ""
  }

  // ---------------------------------------------------------------------------
  // Portal page address
  // ---------------------------------------------------------------------------

  /** `page_name.downcase.gsub(/\s+/, '-')` */
  function Slug(pageName: String): (r: String)
    ensures NoRegexSpace(r)
    ensures forall i :: 0 <= i < |r| ==> !IsUpper(r[i])
    ensures NoRegexSpace(pageName) ==> r == Downcase(pageName)
    ensures NoRegexSpace(pageName) && (forall i :: 0 <= i < |pageName| ==> !IsUpper(pageName[i])) ==> r == pageName
  {
    var d := Downcase(pageName);
    assert NoRegexSpace(pageName) ==> NoRegexSpace(d) by {
      forall i | 0 <= i < |d| && NoRegexSpace(pageName) ensures !IsRegexSpace(d[i]) {
        assert !IsRegexSpace(pageName[i]);
      }
    }
    assert (forall i :: 0 <= i < |pageName| ==> !IsUpper(pageName[i])) ==> d == pageName;
    ReplaceSpaceRuns(d, '-')
  }

  /**
   * A whitespace run after a word becomes one `-` after the downcased
   * word; with this and the clean case above, every page name's slug is
   * determined, run by run.
   */
  lemma SlugOfRun(a: String, w: String, b: String)
    requires NoRegexSpace(a) && w != [] && (forall i :: 0 <= i < |w| ==> IsRegexSpace(w[i]))
    requires b == [] || !IsRegexSpace(b[0])
    ensures Slug(a + w + b) == Downcase(a) + "-" + Slug(b)
  {
    assert Downcase(a + w + b) == Downcase(a) + Downcase(w) + Downcase(b);
    assert Downcase(w) == w;
    ReplaceSpaceRunsOfPadded(Downcase(a), w, Downcase(b), '-');
  }

  /** A slug is its own slug. */
  lemma SlugIdempotent(pageName: String)
    ensures Slug(Slug(pageName)) == Slug(pageName)
  {
  }

  /**
   * `portal_page_url(page_name)`: no address without a portal course, and
   * otherwise the course's page under the Canvas server.
   */
  function PortalPageUrl(portalCourseId: Option<nat>, canvasUrl: String, pageName: String): (r: Option<String>)
    ensures r.None? <==> portalCourseId.None?
    ensures r.Some? ==> r.value == canvasUrl + "/courses/" + Decimal(portalCourseId.value) + "/pages/" + Slug(pageName)
  {
    if portalCourseId.None? then None
    else Some(canvasUrl + "/courses/" + Decimal(portalCourseId.value) + "/pages/" + Slug(pageName))
  }

  /** The page part of the address holds no whitespace and no capitals, and slugging it again changes nothing. */
  lemma PortalPageUrlSlugged(portalCourseId: Option<nat>, canvasUrl: String, pageName: String)
    ensures PortalPageUrl(portalCourseId, canvasUrl, Slug(pageName)) == PortalPageUrl(portalCourseId, canvasUrl, pageName)
    ensures PortalPageUrl(portalCourseId, canvasUrl, pageName).Some? ==>
      var url := PortalPageUrl(portalCourseId, canvasUrl, pageName).value;
      var page := url[|url| - |Slug(pageName)|..];
      && url[..|url| - |page|] == canvasUrl + "/courses/" + Decimal(portalCourseId.value) + "/pages/"
      && NoRegexSpace(page)
      && forall i :: 0 <= i < |page| ==> !IsUpper(page[i])
  {
    SlugIdempotent(pageName);
    if portalCourseId.Some? {
      var url := PortalPageUrl(portalCourseId, canvasUrl, pageName).value;
      var prefix := canvasUrl + "/courses/" + Decimal(portalCourseId.value) + "/pages/";
      assert url == prefix + Slug(pageName);
      assert url[|url| - |Slug(pageName)|..] == Slug(pageName);
      assert url[..|prefix|] == prefix;
    }
  }

  // ---------------------------------------------------------------------------
  // Career steps and keys
  // ---------------------------------------------------------------------------

  /** A row of the fellow's `career_steps`. */
  datatype CareerStep = CareerStep(position: int, name: String, completed: bool)

  /** `completed_career_steps`: the positions of the completed steps. */
  function CompletedPositions(steps: seq<CareerStep>): (r: seq<int>)
    ensures forall p :: p in r <==> exists k :: 0 <= k < |steps| && steps[k].completed && steps[k].position == p
  {
    if steps == [] then []
    else
      var rest := CompletedPositions(steps[1..]);
      assert forall k :: 1 <= k < |steps| ==> steps[k] == steps[1..][k - 1];
      (if steps[0].completed then [steps[0].position] else []) + rest
  }

  /** The two `update_all` passes of `completed_career_steps=`, as values. */
  function MarkCompleted(steps: seq<CareerStep>, positions: seq<int>): (r: seq<CareerStep>)
    ensures |r| == |steps|
    ensures forall k :: 0 <= k < |r| ==>
      r[k].position == steps[k].position && r[k].name == steps[k].name && (r[k].completed <==> steps[k].position in positions)
  {
    var cleared := seq(|steps|, k requires 0 <= k < |steps| => steps[k].(completed := false));
    seq(|cleared|, k requires 0 <= k < |cleared| => if cleared[k].position in positions then cleared[k].(completed := true) else cleared[k])
  }

  /**
   * Setter then getter: the completed positions are exactly the assigned
   * positions that some step has.
   */
  lemma CompletedRoundTrip(steps: seq<CareerStep>, positions: seq<int>)
    ensures forall p :: p in CompletedPositions(MarkCompleted(steps, positions)) <==>
      p in positions && exists k :: 0 <= k < |steps| && steps[k].position == p
  {
    var after := MarkCompleted(steps, positions);
    forall p | p in positions && (exists k :: 0 <= k < |steps| && steps[k].position == p)
      ensures p in CompletedPositions(after)
    {
      var k :| 0 <= k < |steps| && steps[k].position == p;
      assert after[k].completed && after[k].position == p;
    }
  }

  /** `[first_name, last_name, graduation_year, unique_count].join('-')`, the digest's input. */
  function KeySource(firstName: String, lastName: String, graduationYear: Option<int>, uniqueCount: nat): String {
    firstName + "-" + lastName + "-" + YearString(graduationYear) + "-" + Decimal(uniqueCount)
  }

  /** `s[0, n]`: at most the first `n` characters. */
  function Take(s: String, n: nat): (r: String)
    ensures |r| == if |s| < n then |s| else n
    ensures r == s[..|r|]
  {
    if |s| < n then s else s[..n]
  }

  /**
   * A new key: the two initials, the graduation year modulo 100 (0
   * without a year) and four characters of the digest, all upper case.
   */
  function NewKey(firstName: String, lastName: String, graduationYear: Option<int>, uniqueCount: nat, md5: String -> String): (r: String)
    requires firstName != [] && lastName != []
    ensures var year := Decimal(graduationYear.GetOr(0) % 100);
      var hash := Take(md5(KeySource(firstName, lastName, graduationYear, uniqueCount)), 4);
      && |r| == 2 + |year| + |hash|
      && r[0] == UpcaseChar(firstName[0]) && r[1] == UpcaseChar(lastName[0])
      && r[2..2 + |year|] == year
      && r[2 + |year|..] == Upcase(hash)
    ensures forall i :: 0 <= i < |r| ==> !IsLower(r[i])
  {
    var year := Decimal(graduationYear.GetOr(0) % 100);
    var hash := Take(md5(KeySource(firstName, lastName, graduationYear, uniqueCount)), 4);
    var r := Upcase([UpcaseChar(firstName[0]), UpcaseChar(lastName[0])] + year + hash);
    assert r[2..2 + |year|] == year by {
      forall i | 0 <= i < |year| ensures r[2 + i] == year[i] {
        assert IsDigit(year[i]);
      }
    }
    r
  }

  /** `graduation_year` and `graduation_fiscal_year`: `nil`, or an integer strictly between 2010 and 2050. */
  predicate YearInRange(year: Option<int>) {
    year.None? || 2010 < year.value < 2050
  }

  /** With a valid graduation year and a full digest, a key has eight characters, the year's two digits in the middle. */
  lemma NewKeyLength(firstName: String, lastName: String, graduationYear: Option<int>, uniqueCount: nat, md5: String -> String)
    requires firstName != [] && lastName != []
    requires YearInRange(graduationYear) && graduationYear.Some?
    requires |md5(KeySource(firstName, lastName, graduationYear, uniqueCount))| >= 4
    ensures |NewKey(firstName, lastName, graduationYear, uniqueCount, md5)| == 8
    ensures NewKey(firstName, lastName, graduationYear, uniqueCount, md5)[2..4] == Decimal(graduationYear.value - 2000)
    ensures DigitsValue(NewKey(firstName, lastName, graduationYear, uniqueCount, md5)[2..4]) == graduationYear.value - 2000
  {
    assert graduationYear.value % 100 == graduationYear.value - 2000;
    DecimalValue(graduationYear.value - 2000);
  }

  /** `presence: true`: there, and not only whitespace. */
  predicate Present(s: Option<String>) {
    s.Some? && !Blank(s.value)
  }

  /** Every character is whitespace (so the empty string too): Rails' `blank?` on a string. */
  predicate Blank(s: String) {
    forall i :: 0 <= i < |s| ==> IsRegexSpace(s[i])
  }

  // ---------------------------------------------------------------------------
  // Distances
  // ---------------------------------------------------------------------------

  /** The distance `distance_from` reports for a fellow living at `home`, `None` without a postal code. */
  function DistanceOf(home: Option<String>, postalCode: String, distance: (String, String) -> Option<int>): Option<int> {
    if home.None? then None else distance(home.value, postalCode)
  }

  /** The distances `zip_list.map { |zip| distance_from(zip) }` reports. */
  function Distances(home: Option<String>, zips: seq<String>, distance: (String, String) -> Option<int>): (r: seq<Option<int>>)
    ensures |r| == |zips| && forall k :: 0 <= k < |zips| ==> r[k] == DistanceOf(home, zips[k], distance)
  {
    if zips == [] then [] else Distances(home, zips[..|zips| - 1], distance) + [DistanceOf(home, zips[|zips| - 1], distance)]
  }

  /** `distances.compact.min`: the least known distance, `nil` when none is known. */
  function Nearest(distances: seq<Option<int>>): (r: Option<int>)
    ensures r.None? <==> forall k :: 0 <= k < |distances| ==> distances[k].None?
    ensures r.Some? ==> Some(r.value) in distances
    ensures r.Some? ==> forall k :: 0 <= k < |distances| && distances[k].Some? ==> r.value <= distances[k].value
  {
    var known := Compact(distances);
    assert (forall k :: 0 <= k < |distances| ==> distances[k].None?) ==> known == [] by {
      if known != [] {
        assert Some(known[0]) in distances;
      }
    }
    assert forall k :: 0 <= k < |distances| && distances[k].Some? ==> distances[k].value in known;
    Min(known)
  }

  // ---------------------------------------------------------------------------
  // The fellow record
  // ---------------------------------------------------------------------------

  class Fellow {
    var firstName: Option<String>
    var lastName: Option<String>
    var graduationSemester: Option<String>
    var graduationYear: Option<int>
    var graduationFiscalYear: Option<int>
    var key: Option<String>
    /** `contact.postal_code`, `None` without a contact or a postal code. */
    var contactPostalCode: Option<String>
    var careerSteps: seq<CareerStep>
    /** `@distance_from` */
    var distanceMemo: map<String, Option<int>>

    constructor (firstName: Option<String>, lastName: Option<String>, graduationSemester: Option<String>,
                 graduationYear: Option<int>, graduationFiscalYear: Option<int>, contactPostalCode: Option<String>)
      ensures this.firstName == firstName && this.lastName == lastName
      ensures this.graduationSemester == graduationSemester
      ensures this.graduationYear == graduationYear && this.graduationFiscalYear == graduationFiscalYear
      ensures this.contactPostalCode == contactPostalCode
      ensures key == None && careerSteps == [] && distanceMemo == map[]
    {
      this.firstName, this.lastName := firstName, lastName;
      this.graduationSemester := graduationSemester;
      this.graduationYear, this.graduationFiscalYear := graduationYear, graduationFiscalYear;
      this.contactPostalCode := contactPostalCode;
      key, careerSteps, distanceMemo := None, [], map[];
    }

    /** The record's validations, with `validSemesters` for `Course::VALID_SEMESTERS`. */
    predicate ValidRecord(validSemesters: seq<String>)
      reads this
    {
      && Present(firstName) && Present(lastName)
      && (graduationSemester.None? || graduationSemester.value in validSemesters)
      && YearInRange(graduationYear) && YearInRange(graduationFiscalYear)
    }

    /**
     * A record that passes validation has the initials `generate_key`
     * reads, and with a year and a full digest its key has eight characters.
     */
    lemma ValidRecordKey(validSemesters: seq<String>, uniqueCount: nat, md5: String -> String)
      requires ValidRecord(validSemesters)
      ensures firstName.Some? && firstName.value != [] && lastName.Some? && lastName.value != []
      ensures graduationYear.Some? && |md5(KeySource(firstName.value, lastName.value, graduationYear, uniqueCount))| >= 4 ==>
        |NewKey(firstName.value, lastName.value, graduationYear, uniqueCount, md5)| == 8
    {
      if graduationYear.Some? && |md5(KeySource(firstName.value, lastName.value, graduationYear, uniqueCount))| >= 4 {
        NewKeyLength(firstName.value, lastName.value, graduationYear, uniqueCount, md5);
      }
    }

    /** `full_name` */
    function FullName(): (r: String)
      reads this
      ensures Trimmed(r)
      ensures lastName.GetOr("") == [] ==> r == Strip(firstName.GetOr(""))
      ensures firstName.GetOr("") == [] ==> r == Strip(lastName.GetOr(""))
      ensures (&& firstName.Some? && lastName.Some? && firstName.value != [] && lastName.value != []
               && Trimmed(firstName.value) && Trimmed(lastName.value)) ==> r == firstName.value + " " + lastName.value
    {
      SpaceJoin(firstName.GetOr(""), lastName.GetOr(""))
    }

    /** The full name is `"first last"` without its whitespace end-runs, for any name parts. */
    lemma FullNameStrips()
      ensures StrippedFrom(firstName.GetOr("") + " " + lastName.GetOr(""), FullName())
    {
      SpaceJoinStrips(firstName.GetOr(""), lastName.GetOr(""));
    }

    /** `graduation`: semester and year. */
    function Graduation(): (r: String)
      reads this
      ensures Trimmed(r)
      ensures graduationYear.None? ==> r == Strip(graduationSemester.GetOr(""))
      ensures graduationSemester.GetOr("") == [] && graduationYear.Some? ==> r == IntToS(graduationYear.value)
      ensures (graduationSemester.Some? && graduationSemester.value != [] && Trimmed(graduationSemester.value) && graduationYear.Some?)
        ==> r == graduationSemester.value + " " + IntToS(graduationYear.value)
    {
      var year := YearString(graduationYear);
      assert year != [] ==> Trimmed(year) by {
        if year != [] {
          var y := graduationYear.value;
          assert y >= 0 ==> IsDigit(year[0]);
          assert !IsStripSpace(year[0]);
          assert IsDigit(year[|year| - 1]) by {
            if y < 0 {
              assert year[|year| - 1] == year[1..][|year| - 2];
            }
          }
        }
      }
      assert year != [] ==> Strip(year) == year by {
        if year != [] {
          StripTrimmed(year);
        }
      }
      SpaceJoin(graduationSemester.GetOr(""), year)
    }

    /** The graduation is `"semester year"` without its whitespace end-runs, for any semester. */
    lemma GraduationStrips()
      ensures StrippedFrom(graduationSemester.GetOr("") + " " + YearString(graduationYear), Graduation())
    {
      SpaceJoinStrips(graduationSemester.GetOr(""), YearString(graduationYear));
    }

    /** `completed_career_steps` */
    function CompletedCareerSteps(): (r: seq<int>)
      reads this
      ensures forall p :: p in r <==> exists k :: 0 <= k < |careerSteps| && careerSteps[k].completed && careerSteps[k].position == p
    {
      CompletedPositions(careerSteps)
    }

    /** `completed_career_steps = positions`: clear every step, then complete those at the positions. */
    method SetCompletedCareerSteps(positions: seq<int>)
      modifies this`careerSteps
      ensures careerSteps == MarkCompleted(old(careerSteps), positions)
    {
      var steps := careerSteps;
      careerSteps := seq(|steps|, k requires 0 <= k < |steps| => steps[k].(completed := false));
      steps := careerSteps;
      careerSteps := seq(|steps|, k requires 0 <= k < |steps| =>
        if steps[k].position in positions then steps[k].(completed := true) else steps[k]);
    }

    /**
     * `generate_key`, run before the record is created and so after the
     * presence validation; `uniqueCount` is the number of fellows with the
     * same names and year.
     */
    method GenerateKey(uniqueCount: nat, md5: String -> String)
      requires Present(firstName) && Present(lastName)
      modifies this`key
      ensures old(key).Some? ==> key == old(key)
      ensures old(key).None? ==> key == Some(NewKey(firstName.value, lastName.value, graduationYear, uniqueCount, md5))
    {
      if key.Some? {
        return;
      }
      key := Some(NewKey(firstName.value, lastName.value, graduationYear, uniqueCount, md5));
    }

    /** Every remembered distance is the one the fellow's postal code gives. */
    ghost predicate MemoSound(distance: (String, String) -> Option<int>)
      reads this
    {
      forall p :: p in distanceMemo ==> contactPostalCode.Some? && distanceMemo[p] == distance(contactPostalCode.value, p)
    }

    /**
     * `distance_from(postal_code)`: a remembered answer if there is one;
     * `nil`, and nothing remembered, without a postal code of the
     * fellow's own; otherwise the distance, remembered.
     */
    method DistanceFrom(postalCode: String, distance: (String, String) -> Option<int>) returns (d: Option<int>)
      modifies this`distanceMemo
      ensures postalCode in old(distanceMemo) ==> d == old(distanceMemo)[postalCode] && distanceMemo == old(distanceMemo)
      ensures postalCode !in old(distanceMemo) && contactPostalCode.None? ==> d.None? && distanceMemo == old(distanceMemo)
      ensures postalCode !in old(distanceMemo) && contactPostalCode.Some? ==>
        d == distance(contactPostalCode.value, postalCode) && distanceMemo == old(distanceMemo)[postalCode := d]
      ensures old(MemoSound(distance)) ==> MemoSound(distance) && d == DistanceOf(contactPostalCode, postalCode, distance)
    {
      if postalCode in distanceMemo {
        return distanceMemo[postalCode];
      }
      if contactPostalCode.None? {
        return None;
      }
      d := distance(contactPostalCode.value, postalCode);
      distanceMemo := distanceMemo[postalCode := d];
    }

    /** `nearest_distance(zip_list)` */
    method NearestDistance(zips: seq<String>, distance: (String, String) -> Option<int>) returns (r: Option<int>)
      requires MemoSound(distance)
      modifies this`distanceMemo
      ensures MemoSound(distance)
      ensures contactPostalCode.None? ==> distanceMemo == old(distanceMemo)
      ensures contactPostalCode.Some? ==> forall p :: p in distanceMemo <==> p in old(distanceMemo) || p in zips
      ensures r == Nearest(Distances(contactPostalCode, zips, distance))
    {
      var distances: seq<Option<int>> := [];
      for i := 0 to |zips|
        invariant MemoSound(distance)
        invariant contactPostalCode.None? ==> distanceMemo == old(distanceMemo)
        invariant contactPostalCode.Some? ==> forall p :: p in distanceMemo <==> p in old(distanceMemo) || p in zips[..i]
        invariant |distances| == i
        invariant distances == Distances(contactPostalCode, zips[..i], distance)
      {
        var d := DistanceFrom(zips[i], distance);
        distances := distances + [d];
        assert zips[..i + 1] == zips[..i] + [zips[i]];
      }
      assert zips[..|zips|] == zips;
      r := Nearest(distances);
    }
  }

  // ---------------------------------------------------------------------------
  // Import
  // ---------------------------------------------------------------------------

  /** A parsed CSV row: only the cells that hold a value. */
  type Row = map<String, String>

  function Cell(row: Row, header: String): Option<String> {
    if header in row then Some(row[header]) else None
  }

  /** The attributes `import` builds from a row (those that do not need the cohort or number parsing). */
  datatype ImportedFellow = ImportedFellow(
    firstName: Option<String>,
    lastName: Option<String>,
    phone: Option<String>,
    email: Option<String>,
    graduationYear: Option<String>,
    graduationSemester: Option<String>,
    interestsDescription: String,
    major: String,
    affiliations: String,
    linkedinUrl: Option<String>,
    staffNotes: String,
    feedback: String,
    endorsement: Option<nat>,
    professionalism: Option<nat>,
    teamwork: Option<nat>)

  function Attributes(row: Row): ImportedFellow {
    ImportedFellow(
      Cell(row, "First Name"),
      Cell(row, "Last Name"),
      Cell(row, "Phone"),
      Cell(row, "Email"),
      Cell(row, "Ant. Grad Year"),
      Cell(row, "Ant. Grad Semester"),
      EnsureString(Cell(row, "Post-Graduate Career Interests")),
      EnsureString(Cell(row, "Major")),
      EnsureString(Cell(row, "Org Affiliations")),
      Cell(row, "LinkedIn Profile URL"),
      EnsureString(Cell(row, "Braven Staff Notes")),
      EnsureString(Cell(row, "LC feedback")),
      StrengthFor(Cell(row, "LC Endorsement")),
      ReadinessFor(Cell(row, "LC professionalism rating")),
      ReadinessFor(Cell(row, "LC teamwork rating")))
  }

  /** The skip rule: only a graduation semester from the valid list is imported. */
  predicate Accepted(attributes: ImportedFellow, validSemesters: seq<String>) {
    attributes.graduationSemester.Some? && attributes.graduationSemester.value in validSemesters
  }

  /** The attributes passed to `create_or_update`. */
  function Imported(rows: seq<Row>, validSemesters: seq<String>): seq<ImportedFellow> {
    Select(Map(rows, Attributes), a => Accepted(a, validSemesters))
  }

  /**
   * `data['Grad FY'][2..4]` raises for a row without that cell, which ends
   * the import there: the index of the first such row, or `|rows|`.
   */
  predicate HasFiscalYear(row: Row) {
    "Grad FY" in row
  }

  function ReadableRows(rows: seq<Row>): (n: nat)
    ensures n <= |rows|
    ensures forall k :: 0 <= k < n ==> HasFiscalYear(rows[k])
    ensures n < |rows| ==> !HasFiscalYear(rows[n])
  {
    if rows == [] || !HasFiscalYear(rows[0]) then 0 else 1 + ReadableRows(rows[1..])
  }

  /** Reading row `i` either passes it or is where the import stops. */
  lemma ReadableStep(rows: seq<Row>, i: nat)
    requires i <= ReadableRows(rows) && i < |rows|
    ensures HasFiscalYear(rows[i]) ==> i + 1 <= ReadableRows(rows)
    ensures !HasFiscalYear(rows[i]) ==> ReadableRows(rows) == i
  {
  }

  /**
   * `Fellow.import`'s loop over the rows: the accepted rows are saved in
   * order until a row without a 'Grad FY' cell raises; `completed` says
   * whether every row was read.
   */
  method Import(rows: seq<Row>, validSemesters: seq<String>) returns (saved: seq<ImportedFellow>, completed: bool)
    ensures saved == Imported(rows[..ReadableRows(rows)], validSemesters)
    ensures completed <==> ReadableRows(rows) == |rows|
  {
    saved := [];
    var i := 0;
    while i < |rows| && HasFiscalYear(rows[i])
      invariant i <= ReadableRows(rows)
      invariant saved == Imported(rows[..i], validSemesters)
    {
      ReadableStep(rows, i);
      SaveStep(rows, validSemesters, i);
      var attributes := Attributes(rows[i]);
      if Accepted(attributes, validSemesters) {
        saved := saved + [attributes];
      }
      i := i + 1;
    }
    if i < |rows| {
      ReadableStep(rows, i);
    }
    completed := i == |rows|;
  }

  /** Reading one more row adds its attributes when they are accepted. */
  lemma SaveStep(rows: seq<Row>, validSemesters: seq<String>, i: nat)
    requires i < |rows|
    ensures Imported(rows[..i + 1], validSemesters) ==
      Imported(rows[..i], validSemesters) + (if Accepted(Attributes(rows[i]), validSemesters) then [Attributes(rows[i])] else [])
  {
    MapSnoc(rows, Attributes, i);
  }

  /** A row is imported exactly when its graduation semester is valid. */
  lemma ImportedExactly(rows: seq<Row>, validSemesters: seq<String>)
    ensures forall a :: a in Imported(rows, validSemesters) <==> a in Map(rows, Attributes) && Accepted(a, validSemesters)
    ensures |Imported(rows, validSemesters)| <= |rows|
  {
    SelectExactly(Map(rows, Attributes), a => Accepted(a, validSemesters));
  }
}
