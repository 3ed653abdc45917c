/** Job bookkeeping of the mapping page: numbering parsed sheet rows as jobs,
    assigning the selected jobs to a user (`handleAssign`), and the summary of
    the current selection (`summary`). */
module JobAssignment {

  /** A sheet row as `sheet_to_json` gives it: column name to cell text,
      empty cells absent. */
  type Fields = map<string, string>

  /** A job: the row's own columns plus the fields the page adds. */
  datatype Job = Job(fields: Fields, id: nat, assignedUser: string, justAssigned: bool)

  /** Each job's id is its position in the list (hence ids are distinct). */
  ghost predicate IdsArePositions(jobs: seq<Job>) {
    forall i :: 0 <= i < |jobs| ==> jobs[i].id == i
  }

  /** The keys the page writes after spreading a row; a sheet column of the
      same name is replaced by them. */
  const PageKeys: set<string> := {"id", "assignedUser", "justAssigned"}

  /** The map step of `handleFile`: number the rows and mark them unassigned.
      A job's `fields` are the row's columns other than the page's own keys. */
  function ParseJobs(rows: seq<Fields>): (jobs: seq<Job>)
    ensures |jobs| == |rows|
    ensures IdsArePositions(jobs)
    ensures forall i :: 0 <= i < |jobs| ==> jobs[i].assignedUser == "" && !jobs[i].justAssigned
    ensures forall i, col :: 0 <= i < |jobs| && col !in PageKeys ==>
      (col in jobs[i].fields <==> col in rows[i]) && (col in rows[i] ==> jobs[i].fields[col] == rows[i][col])
    ensures forall i, col :: 0 <= i < |jobs| && col in PageKeys ==> col !in jobs[i].fields
  {
    seq(|rows|, i requires 0 <= i < |rows| => Job(rows[i] - PageKeys, i, "", false))
  }

  /** Parsed jobs have pairwise different ids. */
  lemma ParsedIdsDistinct(rows: seq<Fields>, i: nat, j: nat)
    requires i < j < |rows|
    ensures ParseJobs(rows)[i].id != ParseJobs(rows)[j].id
  {
  }

  /** The `prev.map(...)` of `handleAssign`: selected jobs get the user and the
      just-assigned mark, the others are kept. */
  function AssignJobs(jobs: seq<Job>, selected: set<nat>, user: string): (r: seq<Job>)
    ensures |r| == |jobs|
    ensures forall i :: 0 <= i < |jobs| ==> r[i].id == jobs[i].id && r[i].fields == jobs[i].fields
    ensures forall i :: 0 <= i < |jobs| && jobs[i].id in selected ==>
      r[i].assignedUser == user && r[i].justAssigned
    ensures forall i :: 0 <= i < |jobs| && jobs[i].id !in selected ==> r[i] == jobs[i]
  {
    seq(|jobs|, i requires 0 <= i < |jobs| =>
      if jobs[i].id in selected then jobs[i].(assignedUser := user, justAssigned := true) else jobs[i])
  }

  /** Assigning the same selection to the same user again changes nothing. */
  lemma AssignJobsIdempotent(jobs: seq<Job>, selected: set<nat>, user: string)
    ensures AssignJobs(AssignJobs(jobs, selected, user), selected, user) == AssignJobs(jobs, selected, user)
  {
    var once := AssignJobs(jobs, selected, user);
    var twice := AssignJobs(once, selected, user);
    forall i | 0 <= i < |jobs|
      ensures twice[i] == once[i]
    {
      if jobs[i].id in selected {
        assert once[i] == jobs[i].(assignedUser := user, justAssigned := true);
      }
    }
  }

  /** The page state `handleAssign` reads and writes. */
  datatype PageState = PageState(jobs: seq<Job>, selectedJobs: set<nat>, selectedUser: string, showSummary: bool)

  /** `handleAssign`: nothing happens without a chosen user; otherwise assign,
      clear the selection and hide the summary. */
  function HandleAssign(s: PageState): (r: PageState)
    ensures s.selectedUser == "" ==> r == s
    ensures s.selectedUser != "" ==> && r.jobs == AssignJobs(s.jobs, s.selectedJobs, s.selectedUser)
                                     && r.selectedJobs == {}
                                     && !r.showSummary
    ensures r.selectedUser == s.selectedUser
    ensures |r.jobs| == |s.jobs|
  {
    if s.selectedUser == "" then s
    else s.(jobs := AssignJobs(s.jobs, s.selectedJobs, s.selectedUser), selectedJobs := {}, showSummary := false)
  }

  /** Pressing "assign" a second time does nothing more: the selection is already empty. */
  lemma HandleAssignTwice(s: PageState)
    ensures HandleAssign(HandleAssign(s)) == HandleAssign(s)
  {
    var once := HandleAssign(s);
    if s.selectedUser != "" {
      var twice := HandleAssign(once);
      assert twice.jobs == once.jobs by {
        forall i | 0 <= i < |once.jobs|
          ensures twice.jobs[i] == once.jobs[i]
        {
          assert once.jobs[i].id !in once.selectedJobs;
        }
      }
    }
  }

  // ---------------------------------------------------------------------
  // The selection summary.

  /** The meter-type column. */
  const MeterTypeColumn: string := "SAYAÇ TİPİ"
  const UnknownType: string := "Unknown"

  /** `j['SAYAÇ TİPİ'] || 'Unknown'`: a missing or empty meter type reads as "Unknown". */
  function MeterType(job: Job): (r: string)
    ensures r != ""
    ensures MeterTypeColumn !in job.fields ==> r == UnknownType
  {
    if MeterTypeColumn in job.fields && job.fields[MeterTypeColumn] != "" then job.fields[MeterTypeColumn]
    else UnknownType
  }

  /** `jobs.filter(j => selectedJobs.has(j.id))`, in job order. */
  function SelectedJobs(jobs: seq<Job>, selected: set<nat>): (r: seq<Job>)
    ensures |r| <= |jobs|
    ensures forall j :: j in r <==> j in jobs && j.id in selected
    decreases |jobs|
  {
    if |jobs| == 0 then []
    else
      var init := SelectedJobs(jobs[..|jobs| - 1], selected);
      var last := jobs[|jobs| - 1];
      if last.id in selected then init + [last] else init
  }

  /** Filtering a concatenation filters each part, keeping job order. */
  lemma {:induction false} SelectedJobsAppend(a: seq<Job>, b: seq<Job>, selected: set<nat>)
    ensures SelectedJobs(a + b, selected) == SelectedJobs(a, selected) + SelectedJobs(b, selected)
    decreases |b|
  {
    if |b| == 0 {
      assert a + b == a;
    } else {
      var b' := b[..|b| - 1];
      assert (a + b)[..|a + b| - 1] == a + b';
      assert (a + b)[|a + b| - 1] == b[|b| - 1];
      SelectedJobsAppend(a, b', selected);
    }
  }

  /** Reference count: how many of `js` have meter type `t`. */
  function CountOfType(js: seq<Job>, t: string): nat
    decreases |js|
  {
    if |js| == 0 then 0 else (if MeterType(js[0]) == t then 1 else 0) + CountOfType(js[1..], t)
  }

  ghost function Types(js: seq<Job>): set<string> {
    set j | j in js :: MeterType(j)
  }

  /** The sum of all counts in a map. */
  ghost function SumValues(m: map<string, nat>): nat
    decreases |m|
  {
    if |m| == 0 then 0
    else
      var k :| k in m;
      m[k] + SumValues(m - {k})
  }

  /** The key `SumValues` takes out first. */
  lemma PickKey(m: map<string, nat>, k: string) returns (k': string)
    requires k in m
    ensures k' in m && SumValues(m) == m[k'] + SumValues(m - {k'})
  {
    assert |m| > 0 by {
      assert k in m.Keys;
    }
    k' :| k' in m && SumValues(m) == m[k'] + SumValues(m - {k'});
  }

  /** The sum does not depend on which key is taken out first. */
  lemma {:induction false} SumValuesRemove(m: map<string, nat>, k: string)
    requires k in m
    ensures SumValues(m) == m[k] + SumValues(m - {k})
    decreases |m|
  {
    var k' := PickKey(m, k);
    if k' != k {
      var m1 := m - {k'};
      var m2 := m - {k};
      RemoveKey(m, k');
      RemoveKey(m, k);
      SumValuesRemove(m1, k);
      SumValuesRemove(m2, k');
      RemoveBoth(m, k, k');
    }
  }

  /** Removing a present key makes the map one smaller and keeps the other entries. */
  lemma RemoveKey(m: map<string, nat>, k: string)
    requires k in m
    ensures |m - {k}| == |m| - 1
    ensures forall j :: j in m && j != k ==> j in m - {k} && (m - {k})[j] == m[j]
  {
    assert (m - {k}).Keys == m.Keys - {k};
  }

  /** Removing two keys in either order gives the same map. */
  lemma RemoveBoth(m: map<string, nat>, k: string, k': string)
    ensures (m - {k'}) - {k} == (m - {k}) - {k'}
  {
  }

  /** `typesCount[type] = (typesCount[type] || 0) + 1`. */
  function Bump(counts: map<string, nat>, t: string): map<string, nat> {
    counts[t := (if t in counts then counts[t] else 0) + 1]
  }

  /** Bumping one type raises the total of all counts by one. */
  lemma BumpSum(counts: map<string, nat>, t: string)
    ensures SumValues(Bump(counts, t)) == SumValues(counts) + 1
  {
    var b := Bump(counts, t);
    SumValuesRemove(b, t);
    BumpRest(counts, t);
    if t in counts {
      SumValuesRemove(counts, t);
    } else {
      RemoveAbsent(counts, t);
    }
  }

  /** Bumping t leaves every other count as it was. */
  lemma BumpRest(counts: map<string, nat>, t: string)
    ensures Bump(counts, t) - {t} == counts - {t}
  {
  }

  /** Removing a key that is not there changes nothing. */
  lemma RemoveAbsent(m: map<string, nat>, t: string)
    requires t !in m
    ensures m - {t} == m
  {
  }

  /** The `selected.forEach` loop, continuing from the counts so far. */
  function CountTypes(counts: map<string, nat>, js: seq<Job>): map<string, nat>
    decreases |js|
  {
    if |js| == 0 then counts else CountTypes(Bump(counts, MeterType(js[0])), js[1..])
  }

  /** The loop adds every job's type as a key, adds each type's number of jobs
      to its count, and so raises the total of the counts by the number of jobs. */
  lemma CountTypesSpec(counts: map<string, nat>, js: seq<Job>)
    ensures CountTypes(counts, js).Keys == counts.Keys + Types(js)
    ensures forall t :: t in CountTypes(counts, js) ==>
      CountTypes(counts, js)[t] == (if t in counts then counts[t] else 0) + CountOfType(js, t)
    ensures SumValues(CountTypes(counts, js)) == SumValues(counts) + |js|
  {
    CountTypesKeys(counts, js);
    CountTypesValues(counts, js);
    CountTypesSum(counts, js);
  }

  lemma TypesCons(js: seq<Job>)
    requires |js| > 0
    ensures Types(js) == {MeterType(js[0])} + Types(js[1..])
  {
    assert js == [js[0]] + js[1..];
    forall t | t in Types(js)
      ensures t in {MeterType(js[0])} + Types(js[1..])
    {
      var j :| j in js && MeterType(j) == t;
      if j != js[0] {
        assert j in js[1..];
      }
    }
  }

  lemma {:induction false} CountTypesKeys(counts: map<string, nat>, js: seq<Job>)
    ensures CountTypes(counts, js).Keys == counts.Keys + Types(js)
    decreases |js|
  {
    if |js| > 0 {
      CountTypesKeys(Bump(counts, MeterType(js[0])), js[1..]);
      TypesCons(js);
    } else {
      assert Types(js) == {};
    }
  }

  lemma {:induction false} CountTypesValues(counts: map<string, nat>, js: seq<Job>)
    ensures forall t :: t in CountTypes(counts, js) ==>
      CountTypes(counts, js)[t] == (if t in counts then counts[t] else 0) + CountOfType(js, t)
    decreases |js|
  {
    if |js| > 0 {
      CountTypesValues(Bump(counts, MeterType(js[0])), js[1..]);
    }
  }

  lemma {:induction false} CountTypesSum(counts: map<string, nat>, js: seq<Job>)
    ensures SumValues(CountTypes(counts, js)) == SumValues(counts) + |js|
    decreases |js|
  {
    if |js| > 0 {
      CountTypesSum(Bump(counts, MeterType(js[0])), js[1..]);
      BumpSum(counts, MeterType(js[0]));
    }
  }

  /** What the summary popup shows. */
  datatype Summary = Summary(total: nat, typesCount: map<string, nat>)

  /** The `summary` memo: the number of selected jobs and their count per meter type. */
  function ComputeSummary(jobs: seq<Job>, selected: set<nat>): (r: Summary)
    ensures r.total == |SelectedJobs(jobs, selected)|
    ensures r.typesCount.Keys == Types(SelectedJobs(jobs, selected))
    ensures forall t :: t in r.typesCount ==> r.typesCount[t] == CountOfType(SelectedJobs(jobs, selected), t)
    ensures SumValues(r.typesCount) == r.total
  {
    var chosen := SelectedJobs(jobs, selected);
    CountTypesSpec(map[], chosen);
    Summary(|chosen|, CountTypes(map[], chosen))
  }

  /** The positions of the jobs whose id is selected. */
  ghost function SelectedPositions(jobs: seq<Job>, selected: set<nat>): set<nat> {
    set i: nat | i < |jobs| && jobs[i].id in selected
  }

  /** The total is the number of jobs whose id is in the selection. */
  lemma {:induction false} TotalCountsSelectedJobs(jobs: seq<Job>, selected: set<nat>)
    ensures ComputeSummary(jobs, selected).total == |SelectedPositions(jobs, selected)|
    decreases |jobs|
  {
    if |jobs| > 0 {
      var init := jobs[..|jobs| - 1];
      TotalCountsSelectedJobs(init, selected);
      SelectedPositionsSnoc(jobs, selected);
    } else {
      assert SelectedPositions(jobs, selected) == {};
    }
  }

  /** The selected positions of a non-empty list: those of all but the last
      job, plus the last position when its id is selected. */
  lemma SelectedPositionsSnoc(jobs: seq<Job>, selected: set<nat>)
    requires |jobs| > 0
    ensures var last := |jobs| - 1;
      && last !in SelectedPositions(jobs[..last], selected)
      && SelectedPositions(jobs, selected) ==
           SelectedPositions(jobs[..last], selected) + (if jobs[last].id in selected then {last} else {})
  {
  }

  /** On parsed jobs (ids are positions) the total is the number of selected
      ids that name a job. */
  lemma TotalOfParsedJobs(jobs: seq<Job>, selected: set<nat>)
    requires IdsArePositions(jobs)
    ensures ComputeSummary(jobs, selected).total == |(set i: nat | i in selected && i < |jobs|)|
  {
    TotalCountsSelectedJobs(jobs, selected);
    assert SelectedPositions(jobs, selected) == (set i: nat | i in selected && i < |jobs|);
  }

  /** A selected job without a meter type is counted under "Unknown". */
  lemma MissingTypeCountsAsUnknown(jobs: seq<Job>, selected: set<nat>, job: Job)
    requires job in SelectedJobs(jobs, selected)
    requires MeterTypeColumn !in job.fields || job.fields[MeterTypeColumn] == ""
    ensures UnknownType in ComputeSummary(jobs, selected).typesCount
    ensures ComputeSummary(jobs, selected).typesCount[UnknownType] >= 1
  {
    var chosen := SelectedJobs(jobs, selected);
    assert MeterType(job) == UnknownType;
    assert UnknownType in Types(chosen);
    CountTypesSpec(map[], chosen);
    CountPositive(chosen, job);
  }

  lemma {:induction false} CountPositive(js: seq<Job>, job: Job)
    requires job in js
    ensures CountOfType(js, MeterType(job)) >= 1
    decreases |js|
  {
    if js[0] != job {
      assert job in js[1..];
      CountPositive(js[1..], job);
    }
  }

  /** Assigning changes neither ids nor columns, so it does not change any summary. */
  lemma AssignKeepsSummary(jobs: seq<Job>, selected: set<nat>, user: string, shown: set<nat>)
    ensures ComputeSummary(AssignJobs(jobs, selected, user), shown) == ComputeSummary(jobs, shown)
  {
    SelectedTypesUnchanged(jobs, AssignJobs(jobs, selected, user), shown);
  }

  /** Job lists that agree on ids and meter types position by position have
      the same summary. */
  lemma {:induction false} SelectedTypesUnchanged(a: seq<Job>, b: seq<Job>, shown: set<nat>)
    requires |a| == |b|
    requires forall i :: 0 <= i < |a| ==> a[i].id == b[i].id && a[i].fields == b[i].fields
    ensures ComputeSummary(a, shown) == ComputeSummary(b, shown)
  {
    var sa, sb := SelectedJobs(a, shown), SelectedJobs(b, shown);
    SelectedAgree(a, b, shown);
    TypesAgree(map[], sa, sb);
  }

  lemma {:induction false} SelectedAgree(a: seq<Job>, b: seq<Job>, shown: set<nat>)
    requires |a| == |b|
    requires forall i :: 0 <= i < |a| ==> a[i].id == b[i].id && a[i].fields == b[i].fields
    ensures |SelectedJobs(a, shown)| == |SelectedJobs(b, shown)|
    ensures forall i :: 0 <= i < |SelectedJobs(a, shown)| ==>
      MeterType(SelectedJobs(a, shown)[i]) == MeterType(SelectedJobs(b, shown)[i])
    decreases |a|
  {
    if |a| > 0 {
      SelectedAgree(a[..|a| - 1], b[..|b| - 1], shown);
    }
  }

  lemma {:induction false} TypesAgree(counts: map<string, nat>, x: seq<Job>, y: seq<Job>)
    requires |x| == |y|
    requires forall i :: 0 <= i < |x| ==> MeterType(x[i]) == MeterType(y[i])
    ensures CountTypes(counts, x) == CountTypes(counts, y)
    decreases |x|
  {
    if |x| > 0 {
      TypesAgree(Bump(counts, MeterType(x[0])), x[1..], y[1..]);
    }
  }

  /** Right after an assignment nothing is selected, so the summary is empty. */
  lemma SummaryEmptyAfterAssign(s: PageState)
    requires s.selectedUser != ""
    ensures ComputeSummary(HandleAssign(s).jobs, HandleAssign(s).selectedJobs) == Summary(0, map[])
  {
    var r := HandleAssign(s);
    EmptySelection(r.jobs);
    assert Types([]) == {};
  }

  lemma {:induction false} EmptySelection(jobs: seq<Job>)
    ensures SelectedJobs(jobs, {}) == []
    decreases |jobs|
  {
    if |jobs| > 0 {
      EmptySelection(jobs[..|jobs| - 1]);
    }
  }
}
