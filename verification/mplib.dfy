/** `parse_mplib`: the file's lines are read into raw projects, every
    activity is registered under its `"p:a"` name, successor names are
    resolved to indices, predecessors are derived, and the instance is
    built. */
module Mplib {
  import opened Wrappers
  import opened Text
  import opened Instance
  import opened Reader
  import opened Precedence

  /** Why parsing failed. */
  datatype ParseError =
    | Malformed(reason: ReadError)   // the lines do not have the MPLIB layout
    | UnknownSuccessor(token: string) // a successor token names no activity
    | InvalidInstance                 // the instance refused to be constructed

  /** `f"{p}:{a}"`: the name of the `a`-th activity of project `p`, both
      counted from 1. */
  function ActivityName(projectNo: nat, activityNo: nat): string {
    ShowNat(projectNo) + ":" + ShowNat(activityNo)
  }

  /** The first colon of `x:y` sits right after the digits `x`. */
  lemma ColonAt(x: string, y: string)
    requires AllDigits(x)
    ensures |x| < |x + ":" + y| && (x + ":" + y)[|x|] == ':'
    ensures forall i :: 0 <= i < |x| ==> (x + ":" + y)[i] != ':'
  {
    assert forall i :: 0 <= i < |x| ==> (x + ":" + y)[i] == x[i];
  }

  lemma ColonSplit(x: string, y: string, x': string, y': string)
    requires AllDigits(x) && AllDigits(x')
    requires x + ":" + y == x' + ":" + y'
    ensures x == x' && y == y'
  {
    var s := x + ":" + y;
    assert |x| == |x'| by {
      ColonAt(x, y);
      ColonAt(x', y');
    }
    assert x == s[..|x|] && y == s[|x| + 1..];
    assert x' == s[..|x'|] && y' == s[|x'| + 1..];
  }

  /** Different activities have different names. */
  lemma NameInjective(p: nat, a: nat, p': nat, a': nat)
    ensures ActivityName(p, a) == ActivityName(p', a') <==> p == p' && a == a'
  {
    if ActivityName(p, a) == ActivityName(p', a') {
      ColonSplit(ShowNat(p), ShowNat(a), ShowNat(p'), ShowNat(a'));
      ShowNatInjective(p, p');
      ShowNatInjective(a, a');
    }
  }

  /** An activity registered during the first pass, its successors still
      raw tokens. */
  datatype Pending = Pending(projectNo: nat, activityNo: nat, raw: RawActivity)
  {
    function Name(): string {
      ActivityName(projectNo, activityNo)
    }
  }

  /** What the first pass accumulates: `projects`, `activities` and
      `id2idx`. */
  datatype Layout = Layout(projects: seq<Project>, pending: seq<Pending>, ids: map<string, int>)

  /** The `n` consecutive indices from `start`. */
  function Span(start: int, n: nat): (r: seq<int>)
    ensures |r| == n
  {
    seq(n, k => start + k)
  }

  /** The inner loop of the first pass: registers the activities of project
      `projectNo` from the `a`-th (counted from 0) on, each at the next free
      index. */
  function AddActivities(l: Layout, projectNo: nat, acts: seq<RawActivity>, a: nat): Layout
    requires a <= |acts|
    decreases |acts| - a
  {
    if a == |acts| then l
    else
      var p := Pending(projectNo, a + 1, acts[a]);
      AddActivities(Layout(l.projects, l.pending + [p], l.ids[p.Name() := |l.pending|]), projectNo, acts, a + 1)
  }

  /** One round of the project loop: the project's index range starts at the
      number of activities registered so far and spans as many indices as
      its header announces. */
  function AddProject(l: Layout, projectNo: nat, p: RawProject): Layout {
    var start := |l.pending|;
    var project := Project(Span(start, Rounds(p.header.numActivities)), p.header.releaseDate, p.header.dueDate);
    AddActivities(Layout(l.projects + [project], l.pending, l.ids), projectNo, p.activities, 0)
  }

  /** The project loop from project `q` (counted from 0) on. */
  function LayoutFrom(ps: seq<RawProject>, q: nat, l: Layout): Layout
    requires q <= |ps|
    decreases |ps| - q
  {
    if q == |ps| then l else LayoutFrom(ps, q + 1, AddProject(l, q + 1, ps[q]))
  }

  function LayoutOf(ps: seq<RawProject>): Layout {
    LayoutFrom(ps, 0, Layout([], [], map[]))
  }

  // Reference definitions the first pass is measured against.

  /** The number of activities in the projects before project `q`. */
  function Offset(ps: seq<RawProject>, q: nat): nat
    requires q <= |ps|
  {
    if q == 0 then 0 else Offset(ps, q - 1) + |ps[q - 1].activities|
  }

  /** The activities of project `projectNo` from the `a`-th on. */
  function Block(projectNo: nat, acts: seq<RawActivity>, a: nat): seq<Pending>
    requires a <= |acts|
  {
    seq(|acts| - a, b requires 0 <= b < |acts| - a => Pending(projectNo, a + b + 1, acts[a + b]))
  }

  /** All activities of the projects before project `q`, in file order. */
  function Flat(ps: seq<RawProject>, q: nat): seq<Pending>
    requires q <= |ps|
  {
    if q == 0 then [] else Flat(ps, q - 1) + Block(q, ps[q - 1].activities, 0)
  }

  /** Project `q` owns the contiguous indices that follow the earlier
      projects' activities. */
  function ProjectRef(ps: seq<RawProject>, q: nat): Project
    requires q < |ps|
  {
    Project(Span(Offset(ps, q), |ps[q].activities|), ps[q].header.releaseDate, ps[q].header.dueDate)
  }

  /** The map and the activity list agree: every activity's name maps to
      its own index, and every key is the name of the activity it maps to. */
  predicate IdsAgree(pending: seq<Pending>, ids: map<string, int>) {
    && (forall g :: 0 <= g < |pending| ==> pending[g].Name() in ids && ids[pending[g].Name()] == g)
    && (forall t :: t in ids ==> 0 <= ids[t] < |pending| && pending[ids[t]].Name() == t)
  }

  /** Every activity registered so far comes before activity `a` of project
      `p` in file order. */
  predicate Before(pending: seq<Pending>, p: nat, a: nat) {
    forall g :: 0 <= g < |pending| ==>
      pending[g].projectNo < p || (pending[g].projectNo == p && pending[g].activityNo <= a)
  }

  /** Registering an activity whose name is new keeps the map in agreement. */
  lemma AddFresh(pending: seq<Pending>, ids: map<string, int>, p: Pending)
    requires IdsAgree(pending, ids)
    requires forall g :: 0 <= g < |pending| ==> pending[g].Name() != p.Name()
    ensures IdsAgree(pending + [p], ids[p.Name() := |pending|])
  {
    var pending' := pending + [p];
    var ids' := ids[p.Name() := |pending|];
    forall g | 0 <= g < |pending'|
      ensures pending'[g].Name() in ids' && ids'[pending'[g].Name()] == g
    {
      if g < |pending| {
        assert pending'[g] == pending[g];
      }
    }
    forall t | t in ids'
      ensures 0 <= ids'[t] < |pending'| && pending'[ids'[t]].Name() == t
    {
      if t != p.Name() {
        assert pending'[ids[t]] == pending[ids[t]];
      }
    }
  }

  lemma BlockCons(projectNo: nat, acts: seq<RawActivity>, a: nat)
    requires a < |acts|
    ensures [Pending(projectNo, a + 1, acts[a])] + Block(projectNo, acts, a + 1) == Block(projectNo, acts, a)
  {
    var b := Block(projectNo, acts, a);
    var c := [Pending(projectNo, a + 1, acts[a])] + Block(projectNo, acts, a + 1);
    assert |b| == |c|;
    forall k | 0 <= k < |b|
      ensures b[k] == c[k]
    {
      if k > 0 {
        assert c[k] == Block(projectNo, acts, a + 1)[k - 1];
      }
    }
  }

  /** The next activity of the current project extends the file order. */
  lemma BeforeNext(pending: seq<Pending>, projectNo: nat, a: nat, raw: RawActivity)
    requires Before(pending, projectNo, a)
    ensures forall g :: 0 <= g < |pending| ==> pending[g].Name() != ActivityName(projectNo, a + 1)
    ensures Before(pending + [Pending(projectNo, a + 1, raw)], projectNo, a + 1)
  {
    forall g | 0 <= g < |pending|
      ensures pending[g].Name() != ActivityName(projectNo, a + 1)
    {
      NameInjective(pending[g].projectNo, pending[g].activityNo, projectNo, a + 1);
    }
    var pending' := pending + [Pending(projectNo, a + 1, raw)];
    assert forall g :: 0 <= g < |pending| ==> pending'[g] == pending[g];
  }

  /** The inner loop appends the project's remaining activities in order. */
  lemma {:induction false} AddActivitiesPending(l: Layout, projectNo: nat, acts: seq<RawActivity>, a: nat)
    requires a <= |acts|
    ensures AddActivities(l, projectNo, acts, a).pending == l.pending + Block(projectNo, acts, a)
    decreases |acts| - a
  {
    if a < |acts| {
      var p := Pending(projectNo, a + 1, acts[a]);
      var l' := Layout(l.projects, l.pending + [p], l.ids[p.Name() := |l.pending|]);
      AddActivitiesPending(l', projectNo, acts, a + 1);
      BlockCons(projectNo, acts, a);
      assert l'.pending + Block(projectNo, acts, a + 1) == l.pending + Block(projectNo, acts, a);
    } else {
      assert Block(projectNo, acts, a) == [];
    }
  }

  /** Each activity the inner loop registers gets a name of its own. */
  lemma {:induction false} AddActivitiesFresh(l: Layout, projectNo: nat, acts: seq<RawActivity>, a: nat)
    requires a <= |acts|
    requires IdsAgree(l.pending, l.ids) && Before(l.pending, projectNo, a)
    ensures var r := AddActivities(l, projectNo, acts, a);
            IdsAgree(r.pending, r.ids) && Before(r.pending, projectNo, |acts|)
    decreases |acts| - a
  {
    if a < |acts| {
      var p := Pending(projectNo, a + 1, acts[a]);
      BeforeNext(l.pending, projectNo, a, acts[a]);
      AddFresh(l.pending, l.ids, p);
      var l' := Layout(l.projects, l.pending + [p], l.ids[p.Name() := |l.pending|]);
      AddActivitiesFresh(l', projectNo, acts, a + 1);
    }
  }

  /** The inner loop appends the project's remaining activities, in order,
      each under a fresh name. */
  lemma AddActivitiesMeaning(l: Layout, projectNo: nat, acts: seq<RawActivity>, a: nat)
    requires a <= |acts|
    requires IdsAgree(l.pending, l.ids) && Before(l.pending, projectNo, a)
    ensures var r := AddActivities(l, projectNo, acts, a);
            && r.pending == l.pending + Block(projectNo, acts, a)
            && IdsAgree(r.pending, r.ids)
            && Before(r.pending, projectNo, |acts|)
  {
    AddActivitiesPending(l, projectNo, acts, a);
    AddActivitiesFresh(l, projectNo, acts, a);
  }

  lemma {:induction false} FlatLength(ps: seq<RawProject>, q: nat)
    requires q <= |ps|
    ensures |Flat(ps, q)| == Offset(ps, q)
  {
    if q > 0 {
      FlatLength(ps, q - 1);
    }
  }

  /** The state of the first pass before project `q`. */
  predicate LayoutBefore(ps: seq<RawProject>, q: nat, l: Layout)
    requires q <= |ps|
  {
    && l.pending == Flat(ps, q)
    && IdsAgree(l.pending, l.ids)
    && Before(l.pending, q + 1, 0)
  }

  /** The project loop registers every activity in file order, each under a
      name of its own. */
  lemma {:induction false} LayoutFromPending(ps: seq<RawProject>, q: nat, l: Layout)
    requires q <= |ps| && LayoutBefore(ps, q, l)
    ensures LayoutBefore(ps, |ps|, LayoutFrom(ps, q, l))
    decreases |ps| - q
  {
    if q < |ps| {
      var start := |l.pending|;
      var project := Project(Span(start, Rounds(ps[q].header.numActivities)), ps[q].header.releaseDate, ps[q].header.dueDate);
      var l1 := Layout(l.projects + [project], l.pending, l.ids);
      AddActivitiesMeaning(l1, q + 1, ps[q].activities, 0);
      LayoutFromPending(ps, q + 1, AddProject(l, q + 1, ps[q]));
    }
  }

  /** The inner loop leaves the project list alone and registers one
      activity per remaining entry. */
  lemma {:induction false} AddActivitiesShape(l: Layout, projectNo: nat, acts: seq<RawActivity>, a: nat)
    requires a <= |acts|
    ensures AddActivities(l, projectNo, acts, a).projects == l.projects
    ensures |AddActivities(l, projectNo, acts, a).pending| == |l.pending| + |acts| - a
    decreases |acts| - a
  {
    if a < |acts| {
      var p := Pending(projectNo, a + 1, acts[a]);
      AddActivitiesShape(Layout(l.projects, l.pending + [p], l.ids[p.Name() := |l.pending|]), projectNo, acts, a + 1);
    }
  }

  /** With every project holding as many activities as its header says,
      the project loop gives project `q` the indices `ProjectRef` names. */
  lemma {:induction false} LayoutFromProjects(ps: seq<RawProject>, q: nat, l: Layout)
    requires q <= |ps| && HeaderCounts(ps) && |l.pending| == Offset(ps, q)
    requires |l.projects| == q && forall r :: 0 <= r < q ==> l.projects[r] == ProjectRef(ps, r)
    ensures var r := LayoutFrom(ps, q, l);
            && |r.projects| == |ps|
            && forall r' :: 0 <= r' < |ps| ==> r.projects[r'] == ProjectRef(ps, r')
    decreases |ps| - q
  {
    if q < |ps| {
      var start := |l.pending|;
      assert |ps[q].activities| == Rounds(ps[q].header.numActivities);
      var project := Project(Span(start, Rounds(ps[q].header.numActivities)), ps[q].header.releaseDate, ps[q].header.dueDate);
      assert project == ProjectRef(ps, q);
      var l1 := Layout(l.projects + [project], l.pending, l.ids);
      AddActivitiesShape(l1, q + 1, ps[q].activities, 0);
      var l2 := AddProject(l, q + 1, ps[q]);
      assert forall r :: 0 <= r <= q ==> l2.projects[r] == ProjectRef(ps, r);
      LayoutFromProjects(ps, q + 1, l2);
    }
  }

  /** The first pass registers every activity of the file, in order, and
      `id2idx` maps each name to the index of its activity. */
  lemma LayoutOfMeaning(ps: seq<RawProject>)
    ensures LayoutOf(ps).pending == Flat(ps, |ps|)
    ensures IdsAgree(LayoutOf(ps).pending, LayoutOf(ps).ids)
  {
    LayoutFromPending(ps, 0, Layout([], [], map[]));
  }

  lemma LayoutOfLength(ps: seq<RawProject>)
    ensures |LayoutOf(ps).pending| == Offset(ps, |ps|)
  {
    LayoutOfMeaning(ps);
    FlatLength(ps, |ps|);
  }

  /** With consistent headers, project `q` owns exactly the indices of its
      own activities. */
  lemma LayoutOfProjects(ps: seq<RawProject>)
    requires HeaderCounts(ps)
    ensures |LayoutOf(ps).projects| == |ps|
    ensures forall q :: 0 <= q < |ps| ==> LayoutOf(ps).projects[q] == ProjectRef(ps, q)
  {
    LayoutFromProjects(ps, 0, Layout([], [], map[]));
  }

  lemma {:induction false} FlatPrefix(ps: seq<RawProject>, m: nat, n: nat, g: nat)
    requires m <= n <= |ps| && g < |Flat(ps, m)|
    ensures g < |Flat(ps, n)| && Flat(ps, n)[g] == Flat(ps, m)[g]
    decreases n - m
  {
    if m < n {
      FlatPrefix(ps, m, n - 1, g);
    }
  }

  /** The `b`-th activity of project `q` (both counted from 0) sits at
      global index `Offset(ps, q) + b`. */
  lemma FlatAt(ps: seq<RawProject>, q: nat, b: nat)
    requires q < |ps| && b < |ps[q].activities|
    ensures Offset(ps, q) + b < |Flat(ps, |ps|)|
    ensures Flat(ps, |ps|)[Offset(ps, q) + b] == Pending(q + 1, b + 1, ps[q].activities[b])
  {
    FlatLength(ps, q);
    var g := Offset(ps, q) + b;
    assert Flat(ps, q + 1)[g] == Block(q + 1, ps[q].activities, 0)[b];
    FlatPrefix(ps, q + 1, |ps|, g);
  }

  /** `e`, at global index `g`, is the activity its numbers say it is. */
  predicate Located(ps: seq<RawProject>, g: int, e: Pending) {
    && 1 <= e.projectNo <= |ps|
    && 1 <= e.activityNo <= |ps[e.projectNo - 1].activities|
    && e.raw == ps[e.projectNo - 1].activities[e.activityNo - 1]
    && g == Offset(ps, e.projectNo - 1) + e.activityNo - 1
  }

  /** Every entry of the flattened list is some project's activity, at the
      index `FlatAt` gives it. */
  lemma {:induction false} FlatShape(ps: seq<RawProject>, n: nat)
    requires n <= |ps|
    ensures forall g :: 0 <= g < |Flat(ps, n)| ==> Located(ps, g, Flat(ps, n)[g])
  {
    if n > 0 {
      FlatShape(ps, n - 1);
      FlatLength(ps, n - 1);
      var f := Flat(ps, n);
      var front := Flat(ps, n - 1);
      var block := Block(n, ps[n - 1].activities, 0);
      forall g | 0 <= g < |f|
        ensures Located(ps, g, f[g])
      {
        if g < |front| {
          assert f[g] == front[g];
        } else {
          assert f[g] == block[g - |front|];
        }
      }
    }
  }

  /** The resources of the capacities line, each renewable and without
      skills. */
  function Resources(capacities: seq<int>): seq<Resource> {
    seq(|capacities|, c requires 0 <= c < |capacities| => Resource(capacities[c], true, None))
  }

  function SuccessorTokens(pending: seq<Pending>): seq<seq<string>> {
    seq(|pending|, g requires 0 <= g < |pending| => pending[g].raw.successors)
  }

  /** The activities as the instance holds them: one mode each, no delays,
      not optional, no selection groups, and resolved successor and
      derived predecessor lists. Each goes through the activity's own
      construction check, which an activity without delays always passes. */
  function BuildActivities(pending: seq<Pending>, succs: seq<seq<int>>, preds: seq<seq<int>>): seq<Activity>
    requires |succs| == |pending| && |preds| == |pending|
  {
    seq(|pending|, g requires 0 <= g < |pending| =>
      NewActivity([Mode(pending[g].raw.duration, pending[g].raw.demands, None)], succs[g], preds[g], None, false, [], pending[g].Name()).value)
  }

  /** Every resolved successor is the index of a registered activity. */
  lemma LayoutResolvedInRange(ps: seq<RawProject>)
    requires ResolveAll(LayoutOf(ps).ids, SuccessorTokens(LayoutOf(ps).pending)).Success?
    ensures var l := LayoutOf(ps);
            AllInRange(ResolveAll(l.ids, SuccessorTokens(l.pending)).value, |l.pending|)
  {
    var l := LayoutOf(ps);
    LayoutOfMeaning(ps);
    ResolvedInRange(l.ids, SuccessorTokens(l.pending), |l.pending|);
  }

  /** Everything after reading: the first pass, the resolution pass, the
      predecessor pass and the instance's own checks. */
  function Assemble(f: RawFile): (r: Result<ProjectInstance, ParseError>)
    ensures r != Failure(InvalidInstance)
    ensures r.Success? ==> r.value.Valid() && r.value.NumSkills() == 0
  {
    var l := LayoutOf(f.projects);
    var tokens := SuccessorTokens(l.pending);
    match ResolveAll(l.ids, tokens)
    case Failure(t) => Failure(UnknownSuccessor(t))
    case Success(succs) =>
      LayoutResolvedInRange(f.projects);
      var acts := BuildActivities(l.pending, succs, Derive(succs));
      var resources := Resources(f.capacities);
      NewInstanceWithoutSkillVectors(resources, acts, l.projects, None);
      match NewInstance(resources, acts, l.projects, None)
      case Failure(_) => Failure(InvalidInstance)
      case Success(inst) => Success(inst)
  }

  /** What a successful assembly is made of. */
  lemma AssembleParts(f: RawFile)
    requires Assemble(f).Success?
    ensures var l := LayoutOf(f.projects);
            var resolved := ResolveAll(l.ids, SuccessorTokens(l.pending));
            && resolved.Success?
            && AllInRange(resolved.value, |resolved.value|)
            && Assemble(f).value ==
                 ProjectInstance(Resources(f.capacities), BuildActivities(l.pending, resolved.value, Derive(resolved.value)), l.projects, None)
  {
    LayoutResolvedInRange(f.projects);
  }

  /** One resource per token of the capacities line, in order, each
      renewable and without skills; the declared resource count plays no
      part. */
  lemma AssembleResources(f: RawFile)
    requires Assemble(f).Success?
    ensures var inst := Assemble(f).value;
            && |inst.resources| == |f.capacities|
            && forall c :: 0 <= c < |f.capacities| ==> inst.resources[c] == Resource(f.capacities[c], true, None)
  {
    AssembleParts(f);
  }

  /** The indices of the projects' activity lists, one project after the
      other. */
  function Concat(projects: seq<Project>): seq<int> {
    if projects == [] then [] else Concat(projects[..|projects| - 1]) + projects[|projects| - 1].activities
  }

  lemma {:induction false} ConcatRefs(projects: seq<Project>, ps: seq<RawProject>, q: nat)
    requires |projects| == |ps| && q <= |ps|
    requires forall r :: 0 <= r < |ps| ==> projects[r] == ProjectRef(ps, r)
    ensures Concat(projects[..q]) == Span(0, Offset(ps, q))
  {
    if q > 0 {
      ConcatRefs(projects, ps, q - 1);
      assert projects[..q][..q - 1] == projects[..q - 1];
      var a := Offset(ps, q - 1);
      var n := |ps[q - 1].activities|;
      assert Span(0, a) + Span(a, n) == Span(0, a + n);
    }
  }

  /** Projects partition the activity indices: project `q` owns the
      contiguous range that starts after the activities of the earlier
      projects, and the ranges laid end to end are `0, 1, ..., N - 1`. */
  lemma AssembleProjects(f: RawFile)
    requires Assemble(f).Success? && HeaderCounts(f.projects)
    ensures var inst := Assemble(f).value;
            var ps := f.projects;
            && |inst.projects| == |ps|
            && |inst.activities| == Offset(ps, |ps|)
            && (forall q :: 0 <= q < |ps| ==>
                  inst.projects[q] == Project(Span(Offset(ps, q), |ps[q].activities|), ps[q].header.releaseDate, ps[q].header.dueDate))
            && Concat(inst.projects) == Span(0, |inst.activities|)
  {
    var inst := Assemble(f).value;
    AssembleParts(f);
    LayoutOfProjects(f.projects);
    LayoutOfLength(f.projects);
    ConcatRefs(inst.projects, f.projects, |f.projects|);
    assert inst.projects[..|f.projects|] == inst.projects;
  }

  /** The resolved successor list `succ` holds, entry by entry, the index
      of the activity of `acts` whose name is the matching token. */
  predicate ResolvesNames(acts: seq<Activity>, succ: seq<int>, names: seq<string>) {
    && |succ| == |names|
    && forall k :: 0 <= k < |succ| ==> 0 <= succ[k] < |acts| && acts[succ[k]].name == names[k]
  }

  /** The `b`-th activity of project `q` (both counted from 0) is named
      `"q+1:b+1"`, has the one mode its line describes, and each of its
      successors is the activity whose name is the corresponding token of
      the line. */
  lemma AssembleActivity(f: RawFile, inst: ProjectInstance, q: nat, b: nat)
    requires Assemble(f) == Success(inst)
    requires q < |f.projects| && b < |f.projects[q].activities|
    ensures var g := Offset(f.projects, q) + b;
            var raw := f.projects[q].activities[b];
            && g < |inst.activities|
            && inst.activities[g].name == ActivityName(q + 1, b + 1)
            && inst.activities[g].modes == [Mode(raw.duration, raw.demands, None)]
            && inst.activities[g].delays == None
            && !inst.activities[g].optional
            && inst.activities[g].selectionGroups == []
            && ResolvesNames(inst.activities, inst.activities[g].successors, raw.successors)
  {
    AssembleParts(f);
    var l := LayoutOf(f.projects);
    var succs := ResolveAll(l.ids, SuccessorTokens(l.pending)).value;
    BuiltActivity(f.projects, succs, Derive(succs), inst.activities, q, b);
  }

  /** `AssembleActivity` for the activity list the assembly builds. */
  lemma BuiltActivity(ps: seq<RawProject>, succs: seq<seq<int>>, preds: seq<seq<int>>, acts: seq<Activity>, q: nat, b: nat)
    requires ResolveAll(LayoutOf(ps).ids, SuccessorTokens(LayoutOf(ps).pending)) == Success(succs)
    requires |preds| == |succs| && acts == BuildActivities(LayoutOf(ps).pending, succs, preds)
    requires q < |ps| && b < |ps[q].activities|
    ensures var g := Offset(ps, q) + b;
            var raw := ps[q].activities[b];
            && g < |acts|
            && acts[g].name == ActivityName(q + 1, b + 1)
            && acts[g].modes == [Mode(raw.duration, raw.demands, None)]
            && acts[g].delays == None
            && !acts[g].optional
            && acts[g].selectionGroups == []
            && ResolvesNames(acts, acts[g].successors, raw.successors)
  {
    var l := LayoutOf(ps);
    LayoutOfMeaning(ps);
    FlatAt(ps, q, b);
    var g := Offset(ps, q) + b;
    var tokens := SuccessorTokens(l.pending);
    assert tokens[g] == ps[q].activities[b].successors;
    ResolveAllAt(l.ids, tokens, g);
    forall k | 0 <= k < |tokens[g]|
      ensures tokens[g][k] in l.ids && succs[g][k] == l.ids[tokens[g][k]]
    {
      ResolveListAt(l.ids, tokens[g], k);
    }
  }

  /** Activity names are pairwise distinct, and `id2idx` maps each
      activity's name to its own index, so the predecessor pass appends
      exactly the index of the activity it is visiting. */
  lemma AssembleNames(f: RawFile)
    requires Assemble(f).Success?
    ensures var inst := Assemble(f).value;
            var ids := LayoutOf(f.projects).ids;
            && (forall g :: 0 <= g < |inst.activities| ==> inst.activities[g].name in ids && ids[inst.activities[g].name] == g)
            && (forall g, g' :: 0 <= g < g' < |inst.activities| ==> inst.activities[g].name != inst.activities[g'].name)
  {
    AssembleParts(f);
    var l := LayoutOf(f.projects);
    var succs := ResolveAll(l.ids, SuccessorTokens(l.pending)).value;
    BuiltNames(f.projects, succs, Derive(succs), Assemble(f).value.activities);
  }

  /** `AssembleNames` for the activity list the assembly builds. */
  lemma BuiltNames(ps: seq<RawProject>, succs: seq<seq<int>>, preds: seq<seq<int>>, acts: seq<Activity>)
    requires |succs| == |LayoutOf(ps).pending| && |preds| == |succs|
    requires acts == BuildActivities(LayoutOf(ps).pending, succs, preds)
    ensures var ids := LayoutOf(ps).ids;
            && (forall g :: 0 <= g < |acts| ==> acts[g].name in ids && ids[acts[g].name] == g)
            && (forall g, g' :: 0 <= g < g' < |acts| ==> acts[g].name != acts[g'].name)
  {
    LayoutOfMeaning(ps);
  }

  /** Successor and predecessor lists are inverse relations with
      multiplicity, and every predecessor list is ascending. */
  lemma AssemblePredecessors(f: RawFile)
    requires Assemble(f).Success?
    ensures var acts := Assemble(f).value.activities;
            && (forall i, j :: 0 <= i < |acts| && 0 <= j < |acts| ==>
                  Count(acts[j].predecessors, i) == Count(acts[i].successors, j))
            && (forall j :: 0 <= j < |acts| ==> Sorted(acts[j].predecessors) && InRange(acts[j].predecessors, |acts|))
  {
    AssembleParts(f);
    var l := LayoutOf(f.projects);
    var succs := ResolveAll(l.ids, SuccessorTokens(l.pending)).value;
    DeriveInverse(succs);
  }

  /** `t` is the name of some activity of the file: `"p:a"` for a project
      `p` and an activity `a` of it, both counted from 1. */
  predicate NamesActivity(ps: seq<RawProject>, t: string) {
    exists p, a :: 1 <= p <= |ps| && 1 <= a <= |ps[p - 1].activities| && t == ActivityName(p, a)
  }

  lemma KeyNamesActivity(ps: seq<RawProject>, t: string)
    requires t in LayoutOf(ps).ids
    ensures NamesActivity(ps, t)
  {
    var l := LayoutOf(ps);
    LayoutOfMeaning(ps);
    var g := l.ids[t];
    var e := l.pending[g];
    assert e.Name() == t;
    FlatShape(ps, |ps|);
    assert Located(ps, g, e);
    assert 1 <= e.projectNo <= |ps| && 1 <= e.activityNo <= |ps[e.projectNo - 1].activities|;
  }

  lemma NameIsKey(ps: seq<RawProject>, p: nat, a: nat)
    requires 1 <= p <= |ps| && 1 <= a <= |ps[p - 1].activities|
    ensures ActivityName(p, a) in LayoutOf(ps).ids
  {
    var l := LayoutOf(ps);
    LayoutOfMeaning(ps);
    FlatAt(ps, p - 1, a - 1);
    var g := Offset(ps, p - 1) + (a - 1);
    assert l.pending[g] == Pending(p, a, ps[p - 1].activities[a - 1]);
    assert l.pending[g].Name() in l.ids;
  }

  /** The keys of `id2idx` are exactly the names of the file's activities. */
  lemma IdsAreNames(ps: seq<RawProject>, t: string)
    ensures t in LayoutOf(ps).ids <==> NamesActivity(ps, t)
  {
    if t in LayoutOf(ps).ids {
      KeyNamesActivity(ps, t);
    }
    if NamesActivity(ps, t) {
      var p, a :| 1 <= p <= |ps| && 1 <= a <= |ps[p - 1].activities| && t == ActivityName(p, a);
      NameIsKey(ps, p, a);
    }
  }

  /** Every successor token of the file names an activity. */
  predicate AllSuccessorsNamed(ps: seq<RawProject>) {
    forall q, b, k :: 0 <= q < |ps| && 0 <= b < |ps[q].activities| && 0 <= k < |ps[q].activities[b].successors| ==>
      NamesActivity(ps, ps[q].activities[b].successors[k])
  }

  /** The successor lists of the first pass, as the resolution pass reads
      them. */
  function LayoutTokens(ps: seq<RawProject>): seq<seq<string>> {
    SuccessorTokens(LayoutOf(ps).pending)
  }

  /** When every token names an activity, every list resolves. */
  lemma NamedResolves(ps: seq<RawProject>)
    requires AllSuccessorsNamed(ps)
    ensures ResolveAll(LayoutOf(ps).ids, LayoutTokens(ps)).Success?
  {
    var l := LayoutOf(ps);
    var tokens := LayoutTokens(ps);
    LayoutOfMeaning(ps);
    FlatShape(ps, |ps|);
    forall g | 0 <= g < |tokens|
      ensures ResolveList(l.ids, tokens[g]).Success?
    {
      var e := l.pending[g];
      assert Located(ps, g, e);
      forall k | 0 <= k < |tokens[g]|
        ensures tokens[g][k] in l.ids
      {
        IdsAreNames(ps, tokens[g][k]);
      }
      ResolveListMeaning(l.ids, tokens[g]);
    }
    ResolveAllMeaning(l.ids, tokens);
  }

  /** When every list resolves, every token names an activity. */
  lemma ResolvedNamed(ps: seq<RawProject>)
    requires ResolveAll(LayoutOf(ps).ids, LayoutTokens(ps)).Success?
    ensures AllSuccessorsNamed(ps)
  {
    var l := LayoutOf(ps);
    var tokens := LayoutTokens(ps);
    LayoutOfMeaning(ps);
    forall q, b, k | 0 <= q < |ps| && 0 <= b < |ps[q].activities| && 0 <= k < |ps[q].activities[b].successors|
      ensures NamesActivity(ps, ps[q].activities[b].successors[k])
    {
      FlatAt(ps, q, b);
      var g := Offset(ps, q) + b;
      assert tokens[g] == ps[q].activities[b].successors;
      ResolveAllAt(l.ids, tokens, g);
      ResolveListAt(l.ids, tokens[g], k);
      IdsAreNames(ps, tokens[g][k]);
    }
  }

  /** A failed resolution reports a token that names no activity. */
  lemma UnresolvedUnnamed(ps: seq<RawProject>)
    requires ResolveAll(LayoutOf(ps).ids, LayoutTokens(ps)).Failure?
    ensures !NamesActivity(ps, ResolveAll(LayoutOf(ps).ids, LayoutTokens(ps)).error)
  {
    var l := LayoutOf(ps);
    var tokens := LayoutTokens(ps);
    ResolveAllFailure(l.ids, tokens);
    var g :| FirstUnresolved(l.ids, tokens, g) && ResolveList(l.ids, tokens[g]).error == ResolveAll(l.ids, tokens).error;
    ResolveListMeaning(l.ids, tokens[g]);
    var k :| FirstMissing(l.ids, tokens[g], k) && ResolveList(l.ids, tokens[g]).error == tokens[g][k];
    IdsAreNames(ps, tokens[g][k]);
  }

  /** Resolution is all the assembly can fail on: it succeeds exactly when
      every successor token spells the name of an activity of the file,
      whichever project that activity belongs to, and otherwise reports a
      token that names none. */
  lemma AssembleResolves(f: RawFile)
    ensures Assemble(f).Success? <==> AllSuccessorsNamed(f.projects)
    ensures Assemble(f).Failure? ==>
              exists t :: Assemble(f).error == UnknownSuccessor(t) && !NamesActivity(f.projects, t)
  {
    var ps := f.projects;
    var resolved := ResolveAll(LayoutOf(ps).ids, LayoutTokens(ps));
    if resolved.Success? {
      ResolvedNamed(ps);
    } else {
      UnresolvedUnnamed(ps);
      if AllSuccessorsNamed(ps) {
        NamedResolves(ps);
      }
      assert Assemble(f).error == UnknownSuccessor(resolved.error);
    }
  }

  /** `parse_mplib` on the lines of a file. */
  function ParseMplib(raw: seq<string>): (r: Result<ProjectInstance, ParseError>)
    ensures r != Failure(InvalidInstance)
    ensures r.Success? ==> r.value.Valid() && r.value.NumSkills() == 0
  {
    match ReadFile(CleanLines(raw))
    case Failure(e) => Failure(Malformed(e))
    case Success(file) => Assemble(file.value)
  }

  /** On success the resources come from the third non-blank line, one per
      token, and there is one project per round of the project loop. */
  lemma ParseMplibCounts(raw: seq<string>)
    requires ParseMplib(raw).Success?
    ensures var lines := CleanLines(raw);
            var inst := ParseMplib(raw).value;
            && 3 <= |lines|
            && ParseInt(lines[0].text).Some?
            && inst.NumProjects() == Rounds(ParseInt(lines[0].text).value)
            && inst.NumResources() == |lines[2].tokens|
            && forall c :: 0 <= c < |lines[2].tokens| ==>
                 ParseInt(lines[2].tokens[c]) == Some(inst.resources[c].capacity)
                 && inst.resources[c].renewable && inst.resources[c].skills.None?
  {
    var f := ReadFile(CleanLines(raw)).value.value;
    AssembleResources(f);
    AssembleProjects(f);
  }

  /** From line to activity: the `b`-th activity of project `q` (both
      counted from 0) is what its own line `line` of the file says, named
      `"q+1:b+1"`, with each successor index pointing at the activity its
      token names. `f` is the file the lines read to. */
  lemma ParseMplibActivity(raw: seq<string>, f: RawFile, inst: ProjectInstance, q: nat, b: nat, line: nat)
    requires ReadFile(CleanLines(raw)).Success? && ReadFile(CleanLines(raw)).value.value == f
    requires ParseMplib(raw) == Success(inst)
    requires q < |f.projects| && b < |f.projects[q].activities|
    requires line == 3 + LinesOf(f.projects[..q]) + 2 + b
    ensures line < |CleanLines(raw)|
    ensures ParseActivity(CleanLines(raw)[line].tokens, f.numResources) == Success(f.projects[q].activities[b])
    ensures var g := Offset(f.projects, q) + b;
            var act := f.projects[q].activities[b];
            && g < |inst.activities|
            && inst.activities[g].name == ActivityName(q + 1, b + 1)
            && inst.activities[g].modes == [Mode(act.duration, act.demands, None)]
            && ResolvesNames(inst.activities, inst.activities[g].successors, act.successors)
  {
    ReadFileActivity(CleanLines(raw), f, q, b, line);
    AssembleActivity(f, inst, q, b);
  }

  /** From header line to project: the `q`-th project (counted from 0) is
      what its header line `line` of the file says. It owns the announced
      number of activities, at the indices that follow the earlier
      projects' activities, and carries the header's release and due
      dates. `f` is the file the lines read to. */
  lemma ParseMplibProject(raw: seq<string>, f: RawFile, inst: ProjectInstance, q: nat, line: nat)
    requires ReadFile(CleanLines(raw)).Success? && ReadFile(CleanLines(raw)).value.value == f
    requires ParseMplib(raw) == Success(inst)
    requires q < |f.projects|
    requires line == 3 + LinesOf(f.projects[..q])
    ensures ReadHeader(CleanLines(raw), line) == Success(Read(f.projects[q].header, line + 1))
    ensures var h := f.projects[q].header;
            && q < |inst.projects|
            && inst.projects[q] == Project(Span(Offset(f.projects, q), Rounds(h.numActivities)), h.releaseDate, h.dueDate)
  {
    ReadFileHeader(CleanLines(raw), f, q, line);
    AssembleProjects(f);
  }

  /** A file that reads parses exactly when every successor token names
      one of its activities; otherwise the error is a token that names
      none. `f` is the file the lines read to. */
  lemma ParseMplibResolves(raw: seq<string>, f: RawFile)
    requires ReadFile(CleanLines(raw)).Success? && ReadFile(CleanLines(raw)).value.value == f
    ensures ParseMplib(raw).Success? <==> AllSuccessorsNamed(f.projects)
    ensures ParseMplib(raw).Failure? ==>
              exists t :: ParseMplib(raw).error == UnknownSuccessor(t) && !NamesActivity(f.projects, t)
  {
    AssembleResolves(f);
  }

  /** Reading fails exactly when the file's non-blank lines are not well
      formed; every other failure is a dangling successor. */
  lemma ParseMplibSucceeds(raw: seq<string>)
    ensures ParseMplib(raw).Failure? && ParseMplib(raw).error.Malformed? <==> !WellFormedFile(CleanLines(raw))
    ensures ParseMplib(raw).Failure? && !ParseMplib(raw).error.Malformed? ==> ParseMplib(raw).error.UnknownSuccessor?
    ensures ParseMplib(raw).Failure? && ParseMplib(raw).error.Malformed? ==>
              ReadFile(CleanLines(raw)) == Failure(ParseMplib(raw).error.reason)
  {
    ReadFileSucceeds(CleanLines(raw));
    if ReadFile(CleanLines(raw)).Success? {
      AssembleResolves(ReadFile(CleanLines(raw)).value.value);
    }
  }

  /** Truncated input never yields a different instance: cutting the file
      after any line either keeps every line the parse consumed, and then
      gives the same result, or runs out of lines. */
  lemma ParseMplibTruncated(raw: seq<string>, k: nat)
    requires k <= |raw| && ParseMplib(raw).Success?
    ensures ParseMplib(raw[..k]) == ParseMplib(raw) || ParseMplib(raw[..k]) == Failure(Malformed(EndOfInput))
  {
    var lines := CleanLines(raw);
    assert raw == raw[..k] + raw[k..];
    CleanLinesAppend(raw[..k], raw[k..]);
    var front := CleanLines(raw[..k]);
    assert front == lines[..|front|];
    ReadFilePrefix(lines, |front|);
  }
}
