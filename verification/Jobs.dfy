/**
From a Job object to an execution record: the outcome is read from the conditions only.
*/
module Jobs {
  import opened Basics
  import opened Ring

  datatype ConditionType = JobComplete | JobSuccessCriteriaMet | JobFailed | JobFailureTarget | Other

  datatype JobCondition = JobCondition(kind: ConditionType, holds: bool, transition: Option<int>)

  datatype Job = Job(name: string, creation: int, start: Option<int>, completion: Option<int>,
                     conditions: seq<JobCondition>)

  /** `cs[i]` is the first condition that is true and of one of the four final types. */
  ghost predicate FirstOf(cs: seq<JobCondition>, i: int) {
    && 0 <= i < |cs| && cs[i].holds && cs[i].kind != Other
    && forall j :: 0 <= j < i ==> !(cs[j].holds && cs[j].kind != Other)
  }

  /** `jobOutcome`: the first decisive condition, or Running when there is none. */
  method JobOutcome(job: Job) returns (phase: ExecutionPhase, decided: Option<int>)
    ensures phase == Running <==> forall i :: 0 <= i < |job.conditions| ==>
              !(job.conditions[i].holds && job.conditions[i].kind != Other)
    ensures phase == Succeeded <==> exists i ::
              && FirstOf(job.conditions, i)
              && job.conditions[i].kind in {JobComplete, JobSuccessCriteriaMet}
    ensures phase == Failed <==> exists i ::
              && FirstOf(job.conditions, i)
              && job.conditions[i].kind in {JobFailed, JobFailureTarget}
    ensures phase == Running ==> decided == None
    ensures forall i :: FirstOf(job.conditions, i) ==>
              decided == job.conditions[i].transition
  {
    for i := 0 to |job.conditions|
      invariant forall j :: 0 <= j < i ==>
        !(job.conditions[j].holds && job.conditions[j].kind != Other)
    {
      var cond := job.conditions[i];
      if !cond.holds {
        continue;
      }
      match cond.kind {
        case JobComplete => phase := Succeeded;
        case JobSuccessCriteriaMet => phase := Succeeded;
        case JobFailed => phase := Failed;
        case JobFailureTarget => phase := Failed;
        case Other => continue;
      }
      decided := cond.transition;
      assert FirstOf(job.conditions, i);
      return;
    }
    phase, decided := Running, None;
  }

  /** Go's conversion to int32: exact where it can be, and some int32 elsewhere. */
  ghost predicate Int32Conversion(toInt32: int -> int) {
    forall x :: -0x8000_0000 <= toInt32(x) < 0x8000_0000 && (-0x8000_0000 <= x < 0x8000_0000 ==> toInt32(x) == x)
  }

  /**
  `jobToRecord`: a fresh view carries no annotation. Its end is the completion time, or for a failed
  Job without one the time the deciding condition was set, unless that precedes the start; and its
  duration is the span of its two times exactly for runs of fewer than 2^31 seconds.
  */
  method JobToRecord(job: Job, toInt32: int -> int) returns (rec: Record)
    requires Int32Conversion(toInt32)
    ensures rec.jobName == job.name && rec.expected == None && rec.drift == None
    ensures rec.start == if job.start.Some? then job.start.value else job.creation
    ensures rec.phase == Running <==> forall i :: 0 <= i < |job.conditions| ==>
              !(job.conditions[i].holds && job.conditions[i].kind != Other)
    ensures rec.phase == Succeeded <==> exists i ::
              && FirstOf(job.conditions, i)
              && job.conditions[i].kind in {JobComplete, JobSuccessCriteriaMet}
    ensures rec.phase == Failed <==> exists i ::
              && FirstOf(job.conditions, i)
              && job.conditions[i].kind in {JobFailed, JobFailureTarget}
    ensures job.completion.Some? ==> rec.end == if rec.start <= job.completion.value then job.completion else None
    ensures job.completion.None? && rec.phase != Failed ==> rec.end == None
    ensures job.completion.None? && rec.phase == Failed ==>
              forall i :: FirstOf(job.conditions, i) ==>
                var decided := job.conditions[i].transition;
                rec.end == if decided.Some? && rec.start <= decided.value then decided else None
    ensures rec.end.None? ==> rec.duration == None
    ensures rec.end.Some? ==>
              && rec.duration.Some? && -0x8000_0000 <= rec.duration.value < 0x8000_0000
              && (rec.end.value - rec.start < 0x8000_0000 * 1_000_000_000 <==>
                    0 <= rec.end.value - rec.start - rec.duration.value * 1_000_000_000 < 1_000_000_000)
  {
    var phase, decided := JobOutcome(job);
    var start := if job.start.Some? then job.start.value else job.creation;
    rec := Record(job.name, start, None, None, None, None, phase);
    var end := job.completion;
    if end == None && phase == Failed {
      end := decided;
    }
    if end.Some? && end.value >= start {
      rec := rec.(end := end, duration := Some(toInt32((end.value - start) / 1_000_000_000)));
    }
  }

  /** Conditions are only ever added, so a decided outcome is final and only one condition can decide it. */
  lemma OutcomeIsFinal(cs: seq<JobCondition>, later: seq<JobCondition>, i: int, j: int)
    requires FirstOf(cs, i) && FirstOf(cs + later, j)
    ensures j == i && (cs + later)[j] == cs[i]
  {
    assert (cs + later)[i] == cs[i];
  }
}
