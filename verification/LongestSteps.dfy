/** The slowest steps of a continuous-integration run: a list that is kept sorted and
    cut to ten while steps arrive, and the paged job inventory it reads. */
module LongestSteps {
  import opened Bytes
  import opened Wrappers
  import opened Sorting

  type Text = seq<byte>

  /** A step: whether it completed, its duration if that can be computed, its name. */
  datatype Step = Step(completed: bool, elapsed: Option<real>, name: Option<Text>, conclusion: Option<Text>)

  datatype Job = Job(id: int, name: Option<Text>, url: Option<Text>, steps: seq<Step>)

  /** The sort key, then what is only reported. */
  datatype Timed = Timed(seconds: real, job: Text, step: Text, id: int, position: nat,
                         url: Option<Text>, conclusion: Option<Text>)

  const MAX_LONGEST := 10
  const MAX_JOBS := 128

  /** Slowest first, then by job name, step name, job identifier and position. */
  predicate Before(a: Timed, b: Timed) {
    if a.seconds != b.seconds then a.seconds > b.seconds
    else if a.job != b.job then Le(a.job, b.job)
    else if a.step != b.step then Le(a.step, b.step)
    else if a.id != b.id then a.id < b.id
    else a.position <= b.position
  }

  lemma BeforeIsTotal()
    ensures TotalPreorder(Before)
  {
    forall a, b ensures Before(a, b) || Before(b, a) {
      LeTotal(a.job, b.job);
      LeTotal(a.step, b.step);
    }
    forall a, b, c | Before(a, b) && Before(b, c) ensures Before(a, c) { BeforeTransitive(a, b, c); }
  }

  lemma BeforeTransitive(a: Timed, b: Timed, c: Timed)
    requires Before(a, b) && Before(b, c)
    ensures Before(a, c)
  {
    hide Le;
    if a.seconds == b.seconds == c.seconds {
      TextStep(a.job, b.job, c.job);
      TextStep(a.step, b.step, c.step);
    }
  }

  lemma TextStep(a: Text, b: Text, c: Text)
    ensures Le(a, b) && Le(b, c) ==> Le(a, c)
    ensures Le(a, b) && Le(b, c) && a == c ==> a == b
    ensures Le(a, a)
  {
    LeReflexive(a);
    if Le(a, b) && Le(b, c) {
      LeTransitive(a, b, c);
      if a == c { LeAntisymmetric(a, b); }
    }
  }

  lemma BeforeAntisymmetric(a: Timed, b: Timed)
    requires Before(a, b) && Before(b, a)
    ensures a.seconds == b.seconds && a.job == b.job && a.step == b.step && a.id == b.id && a.position == b.position
  {
    if a.job != b.job { LeAntisymmetric(a.job, b.job); }
    if a.step != b.step { LeAntisymmetric(a.step, b.step); }
  }

  // ----- truncated insertion

  function First<T>(n: nat, s: seq<T>): seq<T> {
    if |s| <= n then s else s[..n]
  }

  /** Inserting and then cutting gives the same list whether or not the input was cut
      before. */
  lemma {:induction false} CutThenInsert<T(!new)>(le: (T, T) -> bool, n: nat, s: seq<T>, x: T)
    requires TotalPreorder(le) && Sorted(le, s)
    ensures First(n, InsertLast(le, s, x)) == First(n, InsertLast(le, First(n, s), x))
  {
    if |s| > n {
      var m := |s| - 1;
      var front := s[..m];
      InsertKeeps(le, front, x);
      assert First(n, front) == First(n, s);
      if le(s[m], x) {
        CutBelow(le, n, s, x);
      } else {
        CutThenInsert(le, n, front, x);
        assert InsertLast(le, s, x) == InsertLast(le, front, x) + [s[m]];
        assert First(n, InsertLast(le, s, x)) == First(n, InsertLast(le, front, x));
      }
    }
  }

  lemma CutBelow<T(!new)>(le: (T, T) -> bool, n: nat, s: seq<T>, x: T)
    requires TotalPreorder(le) && Sorted(le, s) && |s| > n && le(s[|s| - 1], x)
    ensures First(n, InsertLast(le, s, x)) == First(n, s) == First(n, InsertLast(le, s[..n], x))
  {
    if n > 0 {
      assert le(s[n - 1], s[|s| - 1]);
      assert le(s[n - 1], x);
      assert InsertLast(le, s[..n], x) == s[..n] + [x];
    }
  }

  /** Sorting after every arrival and cutting to `n` ends with the first `n` of the
      full sort. */
  lemma OnlineIsFullSort<T(!new)>(le: (T, T) -> bool, n: nat, arrived: seq<T>, x: T)
    requires TotalPreorder(le)
    ensures First(n, Sort(le, First(n, Sort(le, arrived)) + [x])) == First(n, Sort(le, arrived + [x]))
  {
    var full := Sort(le, arrived);
    SortSorts(le, arrived);
    var kept := First(n, full);
    assert Sorted(le, kept);
    SortedIsFixed(le, kept);
    assert (kept + [x])[..|kept|] == kept && (arrived + [x])[..|arrived|] == arrived;
    assert Sort(le, kept + [x]) == InsertLast(le, kept, x);
    assert Sort(le, arrived + [x]) == InsertLast(le, full, x);
    CutThenInsert(le, n, full, x);
  }

  // ----- summarize

  function TimedStep(job: Job, position: nat): Option<Timed>
    requires position < |job.steps|
  {
    var step := job.steps[position];
    if step.completed && step.elapsed.Some? && job.name.Some? && step.name.Some? then
      Some(Timed(step.elapsed.value, job.name.value, step.name.value, job.id, position, job.url, step.conclusion))
    else None
  }

  function TimedOf(job: Job, n: nat): seq<Timed>
    requires n <= |job.steps|
  {
    if n == 0 then []
    else TimedOf(job, n - 1) + match TimedStep(job, n - 1) case Some(t) => [t] case None => []
  }

  function TimedSteps(jobs: seq<Job>): seq<Timed> {
    if jobs == [] then []
    else
      var last := jobs[|jobs| - 1];
      TimedSteps(jobs[..|jobs| - 1]) + TimedOf(last, |last.steps|)
  }

  /** `summarize`: after any number of jobs and steps, the ten kept are the first ten
      of the full sort, and every timed step has been counted. */
  method Summarize(jobs: seq<Job>) returns (longest: seq<Timed>, timed: nat)
    ensures longest == First(MAX_LONGEST, Sort(Before, TimedSteps(jobs)))
    ensures timed == |TimedSteps(jobs)|
  {
    hide Sort, First, TimedSteps, TotalPreorder, TimedOf;
    BeforeIsTotal();
    StartsEmpty(jobs);
    longest, timed := [], 0;
    for i := 0 to |jobs|
      invariant longest == First(MAX_LONGEST, Sort(Before, TimedSteps(jobs[..i])))
      invariant timed == |TimedSteps(jobs[..i])|
    {
      var job := jobs[i];
      ghost var before := TimedSteps(jobs[..i]);
      StartsJob(before, job);
      for position := 0 to |job.steps|
        invariant longest == First(MAX_LONGEST, Sort(Before, before + TimedOf(job, position)))
        invariant timed == |before + TimedOf(job, position)|
      {
        NextStep(before, job, position);
        var step := TimedStep(job, position);
        if step.Some? {
          timed := timed + 1;
          OnlineIsFullSort(Before, MAX_LONGEST, before + TimedOf(job, position), step.value);
          longest := longest + [step.value];
          longest := Sort(Before, longest);
          longest := First(MAX_LONGEST, longest);
        }
      }
      NextJob(jobs, i);
    }
    assert jobs[..|jobs|] == jobs;
  }

  /** The timed row of one step: it completed, its duration is known, and both names are
      texts; the row carries what the job and the step say. */
  ghost predicate TimedAt(jobs: seq<Job>, i: nat, p: nat, t: Timed) {
    && i < |jobs| && p < |jobs[i].steps|
    && var job, step := jobs[i], jobs[i].steps[p];
    && step.completed && step.elapsed == Some(t.seconds) && job.name == Some(t.job) && step.name == Some(t.step)
    && t.id == job.id && t.position == p && t.url == job.url && t.conclusion == step.conclusion
  }

  lemma {:induction false} TimedOfIs(job: Job, n: nat, t: Timed)
    requires n <= |job.steps|
    ensures t in TimedOf(job, n) <==> t.position < n && TimedAt([job], 0, t.position, t)
  {
    if n > 0 { TimedOfIs(job, n - 1, t); }
  }

  /** The timed steps are exactly the rows of those steps. */
  lemma {:induction false} TimedStepsAre(jobs: seq<Job>, t: Timed)
    ensures t in TimedSteps(jobs) <==> exists i: nat, p: nat :: TimedAt(jobs, i, p, t)
  {
    if jobs != [] {
      var n := |jobs| - 1;
      var front, last := jobs[..n], jobs[n];
      TimedStepsAre(front, t);
      TimedOfIs(last, |last.steps|, t);
      hide TimedOf;
      if i: nat, p: nat :| TimedAt(front, i, p, t) { assert TimedAt(jobs, i, p, t); }
      if TimedAt([last], 0, t.position, t) { assert TimedAt(jobs, n, t.position, t); }
      if i: nat, p: nat :| TimedAt(jobs, i, p, t) {
        if i < n { assert TimedAt(front, i, p, t); } else { assert TimedAt([last], 0, p, t); }
      }
    }
  }

  /** What is reported is in order of duration, and nothing left out took longer. */
  lemma SlowestAreReported(jobs: seq<Job>)
    ensures var longest := First(MAX_LONGEST, Sort(Before, TimedSteps(jobs)));
      && (forall i, j | 0 <= i < j < |longest| :: longest[i].seconds >= longest[j].seconds)
      && (forall x, y | x in longest && y in TimedSteps(jobs) && y !in longest :: x.seconds >= y.seconds)
      && (forall x | x in longest :: x in TimedSteps(jobs))
      && |longest| == if |TimedSteps(jobs)| < MAX_LONGEST then |TimedSteps(jobs)| else MAX_LONGEST
  {
    var all := TimedSteps(jobs);
    SortedBySeconds(all);
    hide Sort, TimedSteps, First;
    CutInOrder(all, Sort(Before, all));
  }

  lemma SortedBySeconds(all: seq<Timed>)
    ensures var sorted := Sort(Before, all);
      && (forall i, j | 0 <= i < j < |sorted| :: sorted[i].seconds >= sorted[j].seconds)
      && multiset(sorted) == multiset(all) && |sorted| == |all|
  {
    BeforeIsTotal();
    SortSorts(Before, all);
    SortPermutes(Before, all);
    hide Sort, TotalPreorder;
    var sorted := Sort(Before, all);
    forall i, j | 0 <= i < j < |sorted| ensures sorted[i].seconds >= sorted[j].seconds {
      assert Before(sorted[i], sorted[j]);
    }
  }

  lemma CutInOrder(all: seq<Timed>, sorted: seq<Timed>)
    requires forall i, j | 0 <= i < j < |sorted| :: sorted[i].seconds >= sorted[j].seconds
    requires multiset(sorted) == multiset(all) && |sorted| == |all|
    ensures var longest := First(MAX_LONGEST, sorted);
      && (forall i, j | 0 <= i < j < |longest| :: longest[i].seconds >= longest[j].seconds)
      && (forall x, y | x in longest && y in all && y !in longest :: x.seconds >= y.seconds)
      && (forall x | x in longest :: x in all)
      && |longest| == if |all| < MAX_LONGEST then |all| else MAX_LONGEST
  {
    var longest := First(MAX_LONGEST, sorted);
    assert longest <= sorted;
    forall x | x in longest ensures x in all {
      assert x in multiset(sorted) && x in multiset(all);
    }
    forall x, y | x in longest && y in all && y !in longest ensures x.seconds >= y.seconds {
      assert y in multiset(all) && y in multiset(sorted);
      var i :| 0 <= i < |longest| && longest[i] == x;
      var j :| 0 <= j < |sorted| && sorted[j] == y;
      assert sorted[i] == x && i < j;
    }
  }

  lemma StartsEmpty(jobs: seq<Job>)
    ensures TimedSteps(jobs[..0]) == [] && First(MAX_LONGEST, Sort(Before, [])) == []
  {
  }

  lemma StartsJob(before: seq<Timed>, job: Job)
    ensures before + TimedOf(job, 0) == before
  {
  }

  lemma NextStep(before: seq<Timed>, job: Job, position: nat)
    requires position < |job.steps|
    ensures before + TimedOf(job, position + 1) ==
      match TimedStep(job, position)
      case Some(t) => before + TimedOf(job, position) + [t]
      case None => before + TimedOf(job, position)
  {
  }

  lemma NextJob(jobs: seq<Job>, i: nat)
    requires i < |jobs|
    ensures TimedSteps(jobs[..i + 1]) == TimedSteps(jobs[..i]) + TimedOf(jobs[i], |jobs[i].steps|)
  {
    assert jobs[..i + 1][..i] == jobs[..i];
  }

  // ----- the report does not depend on the order of the jobs

  lemma LastRemoved<T>(s: seq<T>)
    requires s != []
    ensures multiset(s[..|s| - 1]) == multiset(s) - multiset{s[|s| - 1]}
  {
    assert s == s[..|s| - 1] + [s[|s| - 1]];
  }

  lemma Rejoined<T>(a: seq<T>, b: seq<T>)
    requires a != [] && b != [] && a[..|a| - 1] == b[..|b| - 1] && a[|a| - 1] == b[|b| - 1]
    ensures a == b
  {
    assert a == a[..|a| - 1] + [a[|a| - 1]] && b == b[..|b| - 1] + [b[|b| - 1]];
  }

  lemma FrontSorted<T>(le: (T, T) -> bool, s: seq<T>)
    requires Sorted(le, s) && s != []
    ensures Sorted(le, s[..|s| - 1])
  {
  }

  lemma Removed<T>(s: seq<T>, k: nat)
    requires k < |s|
    ensures s == s[..k] + [s[k]] + s[k + 1..]
    ensures multiset(s[..k] + s[k + 1..]) == multiset(s) - multiset{s[k]}
  {
    assert s == s[..k] + [s[k]] + s[k + 1..];
  }

  lemma MultisetOf<T>(a: seq<T>, b: seq<T>)
    ensures multiset(a + b) == multiset(a) + multiset(b)
  {
  }

  ghost predicate KeysTell<T(!new)>(le: (T, T) -> bool, s: seq<T>) {
    forall x, y | x in s && y in s && le(x, y) && le(y, x) :: x == y
  }

  lemma FrontKeysTell<T(!new)>(le: (T, T) -> bool, s: seq<T>)
    requires KeysTell(le, s) && s != []
    ensures KeysTell(le, s[..|s| - 1])
  {
  }

  lemma SameLast<T(!new)>(le: (T, T) -> bool, a: seq<T>, b: seq<T>)
    requires multiset(a) == multiset(b) && Sorted(le, a) && Sorted(le, b) && a != [] && KeysTell(le, a)
    ensures b != [] && a[|a| - 1] == b[|b| - 1]
  {
    assert a[0] in multiset(b);
    var n, m := |a| - 1, |b| - 1;
    assert a[n] in multiset(b) && b[m] in multiset(a);
    var i :| 0 <= i < |b| && b[i] == a[n];
    var j :| 0 <= j < |a| && a[j] == b[m];
    assert i != m ==> le(a[n], b[m]);
    assert j != n ==> le(b[m], a[n]);
  }

  /** A sorted permutation is unique when equal keys mean equal elements. */
  lemma {:induction false} SortedIsUnique<T(!new)>(le: (T, T) -> bool, a: seq<T>, b: seq<T>)
    requires multiset(a) == multiset(b) && Sorted(le, a) && Sorted(le, b) && KeysTell(le, a)
    ensures a == b
    decreases |a|
  {
    if a == [] {
      assert |multiset(b)| == |b|;
    } else {
      hide Sorted, KeysTell;
      SameLast(le, a, b);
      var n, m := |a| - 1, |b| - 1;
      LastRemoved(a);
      LastRemoved(b);
      FrontSorted(le, a);
      FrontSorted(le, b);
      FrontKeysTell(le, a);
      SortedIsUnique(le, a[..n], b[..m]);
      Rejoined(a, b);
    }
  }

  lemma {:induction false} TimedConcat(a: seq<Job>, b: seq<Job>)
    ensures TimedSteps(a + b) == TimedSteps(a) + TimedSteps(b)
  {
    hide TimedOf;
    if b == [] {
      assert a + b == a;
    } else {
      var n := |b| - 1;
      TimedConcat(a, b[..n]);
      var last := TimedOf(b[n], |b[n].steps|);
      assert (a + b)[..|a + b| - 1] == a + b[..n];
      assert TimedSteps(a + b) == TimedSteps(a + b[..n]) + last;
      assert TimedSteps(b) == TimedSteps(b[..n]) + last;
    }
  }

  lemma TimedWithout(jobs: seq<Job>, k: nat)
    requires k < |jobs|
    ensures multiset(TimedSteps(jobs)) ==
      multiset(TimedSteps(jobs[..k] + jobs[k + 1..])) + multiset(TimedSteps([jobs[k]]))
  {
    hide TimedSteps;
    var left, right := jobs[..k], jobs[k + 1..];
    assert jobs == left + [jobs[k]] + right;
    TimedConcat(left + [jobs[k]], right);
    TimedConcat(left, [jobs[k]]);
    TimedConcat(left, right);
    var l, m, r := TimedSteps(left), TimedSteps([jobs[k]]), TimedSteps(right);
    MultisetOf(l + m, r);
    MultisetOf(l, m);
    MultisetOf(l, r);
  }

  lemma {:induction false} TimedPermutes(a: seq<Job>, b: seq<Job>)
    requires multiset(a) == multiset(b)
    ensures multiset(TimedSteps(a)) == multiset(TimedSteps(b))
    decreases |a|
  {
    if a == [] {
      assert |multiset(b)| == |b|;
    } else {
      hide TimedSteps;
      assert a[0] in multiset(b);
      var k :| 0 <= k < |b| && b[k] == a[0];
      Removed(a, 0);
      Removed(b, k);
      TimedPermutes(a[..0] + a[1..], b[..k] + b[k + 1..]);
      TimedWithout(a, 0);
      TimedWithout(b, k);
    }
  }

  function Ids(jobs: seq<Job>): seq<int> {
    seq(|jobs|, i requires 0 <= i < |jobs| => jobs[i].id)
  }

  lemma {:induction false} TimedOrigin(jobs: seq<Job>, t: Timed)
    requires t in TimedSteps(jobs)
    ensures exists i :: 0 <= i < |jobs| && t.position < |jobs[i].steps| && TimedStep(jobs[i], t.position) == Some(t)
  {
    var n := |jobs| - 1;
    if t in TimedSteps(jobs[..n]) {
      TimedOrigin(jobs[..n], t);
      var i :| 0 <= i < n && t.position < |jobs[..n][i].steps| && TimedStep(jobs[..n][i], t.position) == Some(t);
      assert jobs[i] == jobs[..n][i];
    } else {
      TimedInJob(jobs[n], |jobs[n].steps|, t);
    }
  }

  lemma {:induction false} TimedInJob(job: Job, n: nat, t: Timed)
    requires n <= |job.steps| && t in TimedOf(job, n)
    ensures t.position < n && TimedStep(job, t.position) == Some(t)
  {
    if t in TimedOf(job, n - 1) { TimedInJob(job, n - 1, t); }
  }

  /** With distinct job identifiers a timed step is known by its key. */
  lemma KeysIdentify(jobs: seq<Job>, a: Timed, b: Timed)
    requires Distinct(Ids(jobs)) && a in TimedSteps(jobs) && b in TimedSteps(jobs) && Before(a, b) && Before(b, a)
    ensures a == b
  {
    BeforeAntisymmetric(a, b);
    TimedOrigin(jobs, a);
    TimedOrigin(jobs, b);
    var i :| 0 <= i < |jobs| && a.position < |jobs[i].steps| && TimedStep(jobs[i], a.position) == Some(a);
    var j :| 0 <= j < |jobs| && b.position < |jobs[j].steps| && TimedStep(jobs[j], b.position) == Some(b);
    assert Ids(jobs)[i] == Ids(jobs)[j];
  }

  /** The same jobs in any order are reported alike. */
  lemma ReportIgnoresOrder(a: seq<Job>, b: seq<Job>)
    requires multiset(a) == multiset(b) && Distinct(Ids(a))
    ensures First(MAX_LONGEST, Sort(Before, TimedSteps(a))) == First(MAX_LONGEST, Sort(Before, TimedSteps(b)))
  {
    hide TimedSteps, Before, Sort, TotalPreorder, Sorted, Ids;
    var x, y := TimedSteps(a), TimedSteps(b);
    TimedPermutes(a, b);
    BeforeIsTotal();
    SortPermutes(Before, x);
    SortPermutes(Before, y);
    SortSorts(Before, x);
    SortSorts(Before, y);
    var sorted := Sort(Before, x);
    forall p, q | p in sorted && q in sorted && Before(p, q) && Before(q, p) ensures p == q {
      assert p in multiset(sorted) && q in multiset(sorted);
      KeysIdentify(a, p, q);
    }
    SortedIsUnique(Before, sorted, Sort(Before, y));
  }

  // ----- the paged inventory

  datatype Page = Page(total: Option<int>, rows: seq<Job>)

  datatype CollectError = InvalidCount | InventoryChanged | InvalidPage | TooManyJobs | Incomplete | DuplicateJobs

  /** The inventory spread over the pages read. */
  ghost predicate Paged(pages: nat -> Page, jobs: seq<Job>) {
    || (pages(1).rows == jobs && |jobs| <= 100 && pages(1).total == Some(|jobs|))
    || (pages(1).rows + pages(2).rows == jobs && pages(1).total == pages(2).total == Some(|jobs|)
        && |pages(1).rows| < |jobs| && |pages(1).rows| <= 100 && |pages(2).rows| <= 100)
  }

  /** The job pages of `collect`: an accepted inventory is complete, bounded and has
      no job twice. */
  method CollectJobs(pages: nat -> Page) returns (r: Result<seq<Job>, CollectError>)
    ensures r.Ok? ==> Paged(pages, r.value) && |r.value| <= MAX_JOBS && Distinct(Ids(r.value))
    ensures r.Err? ==> forall jobs | Paged(pages, jobs) :: |jobs| > MAX_JOBS || !Distinct(Ids(jobs))
  {
    var jobs: seq<Job> := [];
    var expected: Option<int> := None;
    var page := 1;
    while page < 3
      invariant 1 <= page <= 3
      invariant page == 1 ==> jobs == [] && expected == None
      invariant page > 1 ==> expected.Some? && |jobs| < expected.value <= MAX_JOBS
      invariant page > 1 ==> |pages(1).rows| <= 100 && expected == pages(1).total && |pages(1).rows| < expected.value
      invariant page == 2 ==> jobs == pages(1).rows
      invariant page == 3 ==> jobs == pages(1).rows + pages(2).rows
    {
      var response := pages(page);
      if response.total.None? || response.total.value < 0 || response.total.value > MAX_JOBS { return Err(InvalidCount); }
      if expected.Some? && expected != response.total { return Err(InventoryChanged); }
      if |response.rows| > 100 { return Err(InvalidPage); }
      expected := response.total;
      jobs := jobs + response.rows;
      if |jobs| > expected.value { return Err(TooManyJobs); }
      if |jobs| == expected.value {
        assert Paged(pages, jobs);
        SetSizeIsDistinct(Ids(jobs));
        if |set id | id in Ids(jobs)| != |Ids(jobs)| { return Err(DuplicateJobs); }
        return Ok(jobs);
      }
      page := page + 1;
    }
    r := Err(Incomplete);
  }
}
