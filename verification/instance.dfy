/** The project scheduling instance: resources, modes, activities, projects
    and the instance that owns them, with the checks the records run when
    they are constructed. */
module Instance {
  import opened Wrappers

  /** Why a record refused to be built. */
  datatype ModelError =
    | DelaysMismatch            // an activity's delays and successors differ in length
    | SkillRequirementsMismatch // a mode's skill requirements do not match the skill count
    | ResourceSkillsMismatch    // a resource's skills do not match the skill count

  /** A resource with a maximum capacity; `skills` is absent when the
      instance does not consider skills. */
  datatype Resource = Resource(capacity: int, renewable: bool, skills: Option<seq<bool>>)

  /** One way to process an activity: a duration, one demand per resource and,
      optionally, one requirement per skill. */
  datatype Mode = Mode(duration: int, demands: seq<int>, skillRequirements: Option<seq<int>>)

  /** A unit of work. Successors and predecessors are indices into the
      instance's activity list; `delays`, when given, holds one lag per
      successor. */
  datatype Activity = Activity(
    modes: seq<Mode>,
    successors: seq<int>,
    predecessors: seq<int>,
    delays: Option<seq<int>>,
    optional: bool,
    selectionGroups: seq<seq<int>>,
    name: string)
  {
    function NumModes(): nat {
      |modes|
    }
  }

  /** A set of activities (by index) sharing a release date and, perhaps, a
      due date. */
  datatype Project = Project(activities: seq<int>, releaseDate: int, dueDate: Option<int>)
  {
    function NumActivities(): nat {
      |activities|
    }
  }

  /** The whole instance; an activity's position in `activities` is its
      global index. */
  datatype ProjectInstance = ProjectInstance(
    resources: seq<Resource>,
    activities: seq<Activity>,
    projects: seq<Project>,
    skills: Option<seq<int>>)
  {
    function NumResources(): nat {
      |resources|
    }

    function NumActivities(): nat {
      |activities|
    }

    function NumProjects(): nat {
      |projects|
    }

    /** An absent skill list and an empty one both mean no skills. */
    function NumSkills(): nat {
      if skills.Some? && skills.value != [] then |skills.value| else 0
    }

    /** The invariant construction enforces: every present skill vector,
        on a mode or on a resource, has one entry per skill. */
    predicate Valid() {
      && ModesMatch(activities, NumSkills())
      && ResourcesMatch(resources, NumSkills())
    }
  }

  predicate ModeMatches(m: Mode, numSkills: nat) {
    m.skillRequirements.None? || |m.skillRequirements.value| == numSkills
  }

  predicate ResourceMatches(r: Resource, numSkills: nat) {
    r.skills.None? || |r.skills.value| == numSkills
  }

  predicate ModesMatch(acts: seq<Activity>, numSkills: nat) {
    forall i, j :: 0 <= i < |acts| && 0 <= j < |acts[i].modes| ==> ModeMatches(acts[i].modes[j], numSkills)
  }

  predicate ResourcesMatch(rs: seq<Resource>, numSkills: nat) {
    forall i :: 0 <= i < |rs| ==> ResourceMatches(rs[i], numSkills)
  }

  /** The inner loop of the instance check: scans one activity's modes. */
  function ScanModes(modes: seq<Mode>, numSkills: nat): (ok: bool)
    ensures ok <==> forall j :: 0 <= j < |modes| ==> ModeMatches(modes[j], numSkills)
  {
    if modes == [] then true
    else ModeMatches(modes[0], numSkills) && ScanModes(modes[1..], numSkills)
  }

  /** The outer loop of the instance check: scans the activities in order. */
  function ScanActivities(acts: seq<Activity>, numSkills: nat): (ok: bool)
    ensures ok <==> ModesMatch(acts, numSkills)
  {
    if acts == [] then true
    else
      var ok := ScanModes(acts[0].modes, numSkills) && ScanActivities(acts[1..], numSkills);
      assert ModesMatch(acts, numSkills) <==> ScanModes(acts[0].modes, numSkills) && ModesMatch(acts[1..], numSkills) by {
        assert forall i :: 1 <= i < |acts| ==> acts[i] == acts[1..][i - 1];
      }
      ok
  }

  /** The resource loop of the instance check. */
  function ScanResources(rs: seq<Resource>, numSkills: nat): (ok: bool)
    ensures ok <==> ResourcesMatch(rs, numSkills)
  {
    if rs == [] then true
    else ResourceMatches(rs[0], numSkills) && ScanResources(rs[1..], numSkills)
  }

  /** Builds an activity, refusing it when `delays` is a non-empty list whose
      length differs from the number of successors. An absent or empty
      `delays` is never checked. */
  function NewActivity(
    modes: seq<Mode>, successors: seq<int>, predecessors: seq<int>, delays: Option<seq<int>>,
    optional: bool, selectionGroups: seq<seq<int>>, name: string): (r: Result<Activity, ModelError>)
    ensures r.Failure? <==> delays.Some? && delays.value != [] && |delays.value| != |successors|
    ensures r.Failure? ==> r.error == DelaysMismatch
    ensures r.Success? ==> r.value == Activity(modes, successors, predecessors, delays, optional, selectionGroups, name)
  {
    if delays.Some? && delays.value != [] && |delays.value| != |successors| then
      Failure(DelaysMismatch)
    else
      Success(Activity(modes, successors, predecessors, delays, optional, selectionGroups, name))
  }

  /** Builds an instance. The activities' modes are checked before the
      resources, so when both disagree with the skill count the mode error is
      the one reported. */
  function NewInstance(
    resources: seq<Resource>, activities: seq<Activity>, projects: seq<Project>,
    skills: Option<seq<int>>): (r: Result<ProjectInstance, ModelError>)
    ensures var inst := ProjectInstance(resources, activities, projects, skills);
            && (r.Success? <==> inst.Valid())
            && (r.Success? ==> r.value == inst)
            && (r == Failure(SkillRequirementsMismatch) <==> !ModesMatch(activities, inst.NumSkills()))
            && (r == Failure(ResourceSkillsMismatch) <==>
                  ModesMatch(activities, inst.NumSkills()) && !ResourcesMatch(resources, inst.NumSkills()))
  {
    var inst := ProjectInstance(resources, activities, projects, skills);
    if !ScanActivities(activities, inst.NumSkills()) then Failure(SkillRequirementsMismatch)
    else if !ScanResources(resources, inst.NumSkills()) then Failure(ResourceSkillsMismatch)
    else Success(inst)
  }

  /** `num_modes` is the number of modes. */
  lemma ModeCount(a: Activity)
    ensures a.NumModes() == |a.modes|
  {
  }

  /** A project's `num_activities` is the number of its activity indices. */
  lemma ProjectActivityCount(p: Project)
    ensures p.NumActivities() == |p.activities|
  {
  }

  /** The instance's counts are the lengths of the lists they count. */
  lemma InstanceCounts(inst: ProjectInstance)
    ensures inst.NumResources() == |inst.resources|
    ensures inst.NumActivities() == |inst.activities|
    ensures inst.NumProjects() == |inst.projects|
  {
  }

  /** `num_skills` follows Python truthiness, which for a list agrees with
      taking its length: absent gives 0, present gives its length. */
  lemma NumSkillsIsLength(inst: ProjectInstance)
    ensures inst.NumSkills() == (if inst.skills.Some? then |inst.skills.value| else 0)
    ensures inst.NumSkills() == 0 <==> inst.skills.None? || inst.skills.value == []
  {
  }

  /** Construction never fails when no mode and no resource carries a skill
      vector, whatever the other fields hold. */
  lemma NewInstanceWithoutSkillVectors(
    resources: seq<Resource>, activities: seq<Activity>, projects: seq<Project>, skills: Option<seq<int>>)
    requires forall i, j :: 0 <= i < |activities| && 0 <= j < |activities[i].modes| ==>
               activities[i].modes[j].skillRequirements.None?
    requires forall i :: 0 <= i < |resources| ==> resources[i].skills.None?
    ensures NewInstance(resources, activities, projects, skills).Success?
  {
  }

  /** The outcome of construction depends only on the skill vectors and the
      skill count: replacing everything else leaves it unchanged. */
  lemma NewInstanceInspectsOnlySkills(
    inst: ProjectInstance, other: ProjectInstance)
    requires |inst.resources| == |other.resources| && |inst.activities| == |other.activities|
    requires forall i :: 0 <= i < |inst.resources| ==> inst.resources[i].skills == other.resources[i].skills
    requires forall i :: 0 <= i < |inst.activities| ==>
               |inst.activities[i].modes| == |other.activities[i].modes|
    requires forall i, j :: 0 <= i < |inst.activities| && 0 <= j < |inst.activities[i].modes| ==>
               inst.activities[i].modes[j].skillRequirements == other.activities[i].modes[j].skillRequirements
    requires inst.NumSkills() == other.NumSkills()
    ensures NewInstance(inst.resources, inst.activities, inst.projects, inst.skills).Success?
        <==> NewInstance(other.resources, other.activities, other.projects, other.skills).Success?
  {
    assert inst.Valid() <==> other.Valid();
  }
}
