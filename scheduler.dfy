/** The conversion scheduler `ugoira2mp4` shared by both servers: a
    module-level array of ids being converted, admission when it holds at
    most four entries and not the id, a retry counter that only thrown
    exceptions advance, and `removeConvertCache`, which takes the id out
    again. One attempt (metadata request, archive download and encoding) is
    an outcome chosen by the environment; sleeping before a recheck is a
    step that consumes fuel and not a retry. */
module Scheduler {
  import opened Text
  import opened Seqs

  /** What one admitted attempt comes to. */
  datatype Outcome =
    | Throws                               // an exception inside the `try`
    | Ineligible                           // no metadata, or `meta.error`
    | DownloadFailed                       // the archive could not be fetched
    | Encoded(ts: nat, video: seq<bv8>)    // the encoder produced a video at time ts

  /** What a call resolves to: the video (`true`), a falsy result without
      retry (`undefined` in index.js, `false` in api/index.js), `undefined`
      after the fourth exception, or no answer yet when the fuel ran out. */
  datatype Conversion =
    | Converted(ts: nat, video: seq<bv8>)
    | NotConverted
    | RetriesExceeded
    | StillWaiting

  /** A resolved call and the number of attempts it ran. */
  datatype Run = Run(result: Conversion, attempts: nat)

  /** `Array.prototype.indexOf`: the first position of x, or -1. */
  function IndexOf(s: seq<string>, x: string): (i: int)
    ensures i >= -1
    ensures (i == -1) == (x !in s)
    ensures i >= 0 ==> i < |s| && s[i] == x && x !in s[..i]
  {
    if s == [] then -1
    else if s[0] == x then 0
    else
      var i := IndexOf(s[1..], x);
      if i == -1 then
        assert x !in s by { assert s == [s[0]] + s[1..]; }
        -1
      else
        assert s[i + 1] == x;
        assert s[..i + 1] == [s[0]] + s[1..][..i];
        i + 1
  }

  /** `s.splice(start, 1)` on what it leaves behind: a negative start counts
      from the end, and a start past the end deletes nothing. */
  function SpliceOne(s: seq<string>, start: int): (r: seq<string>)
    ensures |s| > 0 && start < |s| ==> |r| == |s| - 1
    ensures start >= |s| ==> r == s
    ensures |s| == 0 ==> r == []
    ensures 0 <= start < |s| ==> r == s[..start] + s[start + 1..]
    ensures start < 0 && |s| > 0 ==> r == s[..Clamp(|s| + start, |s|)] + s[Clamp(|s| + start, |s|) + 1..]
  {
    var k := Clamp(if start < 0 then |s| + start else start, |s|);
    if k < |s| then s[..k] + s[k + 1..] else s
  }

  /** The queue after `splice(indexOf(id), 1)`. */
  function Released(queue: seq<string>, id: string): seq<string> {
    SpliceOne(queue, IndexOf(queue, id))
  }

  /** The admission test negated: `length > 4 || indexOf(id) > -1` waits. */
  predicate Admits(queue: seq<string>, id: string) {
    !(|queue| > 4 || IndexOf(queue, id) > -1)
  }

  /** At most five ids in flight, none of them twice. */
  predicate WellFormed(queue: seq<string>) {
    |queue| <= 5 && Distinct(queue)
  }

  /** Admission keeps the queue within five entries and free of duplicates. */
  lemma AdmissionKeepsWellFormed(queue: seq<string>, id: string)
    requires WellFormed(queue) && Admits(queue, id)
    ensures WellFormed(queue + [id])
    ensures |queue + [id]| <= 5
  {
    assert id !in queue;
  }

  /** Releasing an admitted id gives back exactly the queue it was admitted to. */
  lemma ReleaseUndoesAdmission(queue: seq<string>, id: string)
    requires id !in queue
    ensures Released(queue + [id], id) == queue
  {
    var q := queue + [id];
    var i := IndexOf(q, id);
    assert q[|queue|] == id;
    assert id in q;
    assert i == |queue|;
    assert q[..i] == queue;
  }

  /** Releasing keeps a well-formed queue well-formed. */
  lemma ReleaseKeepsWellFormed(queue: seq<string>, id: string)
    requires WellFormed(queue)
    ensures WellFormed(Released(queue, id))
  {
    if |queue| > 0 {
      var i := IndexOf(queue, id);
      var k := Clamp(if i < 0 then |queue| + i else i, |queue|);
      RemoveAtDistinct(queue, k);
    }
  }

  /** The outcome of `ugoira2mp4(id, retryTimes)` started on queue `queue`,
      when attempt number retryTimes comes to `attempt(retryTimes)`. Nothing
      else changes the queue while a call sleeps, so a call that has to wait
      waits until its fuel runs out. */
  function Convert(queue: seq<string>, id: string, retryTimes: nat, attempt: nat -> Outcome, fuel: nat): (run: Run)
    decreases fuel, 4 - retryTimes
  {
    if retryTimes > 3 then Run(RetriesExceeded, 0)
    else if !Admits(queue, id) then
      if fuel == 0 then Run(StillWaiting, 0) else Convert(queue, id, retryTimes, attempt, fuel - 1)
    else
      match attempt(retryTimes)
      case Throws =>
        var next := Convert(queue, id, retryTimes + 1, attempt, fuel);
        Run(next.result, next.attempts + 1)
      case Encoded(ts, video) => Run(Converted(ts, video), 1)
      case _ => Run(NotConverted, 1)
  }

  /** The array `ugoiraConvertQueue` and the operations that push onto it and
      splice from it. */
  class ConvertQueue {
    var queue: seq<string>

    ghost predicate Valid()
      reads this
    {
      WellFormed(queue)
    }

    constructor ()
      ensures queue == [] && Valid()
    {
      queue := [];
    }

    /** `removeConvertCache(id)`: the first occurrence of id is spliced out. */
    method Release(id: string)
      requires Valid()
      modifies this
      ensures Valid()
      ensures queue == Released(old(queue), id)
    {
      ReleaseKeepsWellFormed(queue, id);
      queue := SpliceOne(queue, IndexOf(queue, id));
    }

    /** `ugoira2mp4(id, retryTimes)`: each admitted attempt pushes id and
        releases it once, on the exception path and on the normal path, so
        the queue ends as it started and stays well-formed throughout. */
    method Ugoira2Mp4(id: string, retryTimes: nat, attempt: nat -> Outcome, fuel: nat) returns (r: Conversion)
      requires Valid()
      modifies this
      ensures Valid() && queue == old(queue)
      ensures r == Convert(old(queue), id, retryTimes, attempt, fuel).result
      decreases fuel, 4 - retryTimes
    {
      if retryTimes > 3 {
        return RetriesExceeded;
      }
      if |queue| > 4 || IndexOf(queue, id) > -1 {
        if fuel == 0 {
          return StillWaiting;
        }
        r := Ugoira2Mp4(id, retryTimes, attempt, fuel - 1);
        return;
      }
      AdmissionKeepsWellFormed(queue, id);
      ReleaseUndoesAdmission(queue, id);
      queue := queue + [id];
      var outcome := attempt(retryTimes);
      if outcome.Throws? {
        Release(id);
        r := Ugoira2Mp4(id, retryTimes + 1, attempt, fuel);
        return;
      }
      Release(id);
      r := if outcome.Encoded? then Converted(outcome.ts, outcome.video) else NotConverted;
    }
  }

  /** At most four attempts run over all retries: one per counter value from
      retryTimes up to 3. */
  lemma {:induction false} AtMostFourAttempts(queue: seq<string>, id: string, retryTimes: nat, attempt: nat -> Outcome, fuel: nat)
    ensures Convert(queue, id, retryTimes, attempt, fuel).attempts <= if retryTimes > 3 then 0 else 4 - retryTimes
    decreases fuel, 4 - retryTimes
  {
    if retryTimes <= 3 {
      if !Admits(queue, id) {
        if fuel > 0 {
          AtMostFourAttempts(queue, id, retryTimes, attempt, fuel - 1);
        }
      } else if attempt(retryTimes).Throws? {
        AtMostFourAttempts(queue, id, retryTimes + 1, attempt, fuel);
      }
    }
  }

  /** Only exceptions retry: an ineligible post or a failed download ends
      the call after that one attempt, without a video. */
  lemma NoRetryWithoutException(queue: seq<string>, id: string, retryTimes: nat, attempt: nat -> Outcome, fuel: nat)
    requires retryTimes <= 3 && Admits(queue, id)
    requires attempt(retryTimes) == Ineligible || attempt(retryTimes) == DownloadFailed
    ensures Convert(queue, id, retryTimes, attempt, fuel) == Run(NotConverted, 1)
  {
  }

  /** If the attempts from retryTimes on throw until attempt k, which
      encodes, the call delivers that video after k - retryTimes + 1
      attempts. */
  lemma {:induction false} ThrowsThenEncodes(queue: seq<string>, id: string, retryTimes: nat, k: nat, attempt: nat -> Outcome, fuel: nat)
    requires Admits(queue, id)
    requires retryTimes <= k <= 3
    requires forall j :: retryTimes <= j < k ==> attempt(j).Throws?
    requires attempt(k).Encoded?
    ensures Convert(queue, id, retryTimes, attempt, fuel)
         == Run(Converted(attempt(k).ts, attempt(k).video), k - retryTimes + 1)
    decreases k - retryTimes
  {
    if retryTimes < k {
      assert attempt(retryTimes).Throws?;
      ThrowsThenEncodes(queue, id, retryTimes + 1, k, attempt, fuel);
    }
  }

  /** Four exceptions in a row exhaust the retries: the call gives up after
      exactly four attempts. */
  lemma {:induction false} FourExceptionsGiveUp(queue: seq<string>, id: string, retryTimes: nat, attempt: nat -> Outcome, fuel: nat)
    requires Admits(queue, id) && retryTimes <= 4
    requires forall j :: retryTimes <= j < 4 ==> attempt(j).Throws?
    ensures Convert(queue, id, retryTimes, attempt, fuel) == Run(RetriesExceeded, 4 - retryTimes)
    decreases 4 - retryTimes
  {
    if retryTimes < 4 {
      assert attempt(retryTimes).Throws?;
      FourExceptionsGiveUp(queue, id, retryTimes + 1, attempt, fuel);
    }
  }

  /** A call converts exactly when it is admitted and some attempt k <= 3
      encodes after every earlier one threw. */
  lemma {:induction false} ConvertedIff(queue: seq<string>, id: string, retryTimes: nat, attempt: nat -> Outcome, fuel: nat)
    requires retryTimes <= 4
    ensures Convert(queue, id, retryTimes, attempt, fuel).result.Converted?
        <==> Admits(queue, id) &&
             (exists k :: retryTimes <= k <= 3 && attempt(k).Encoded? && (forall j :: retryTimes <= j < k ==> attempt(j).Throws?))
    decreases fuel, 4 - retryTimes
  {
    if retryTimes <= 3 && Admits(queue, id) {
      var o := attempt(retryTimes);
      if o.Throws? {
        ConvertedIff(queue, id, retryTimes + 1, attempt, fuel);
        if exists k :: retryTimes <= k <= 3 && attempt(k).Encoded? && forall j :: retryTimes <= j < k ==> attempt(j).Throws? {
          var k :| retryTimes <= k <= 3 && attempt(k).Encoded? && forall j :: retryTimes <= j < k ==> attempt(j).Throws?;
          assert retryTimes + 1 <= k;
        }
      } else if o.Encoded? {
        assert attempt(retryTimes).Encoded?;
      } else {
        forall k | retryTimes <= k <= 3 && attempt(k).Encoded?
          ensures !(forall j :: retryTimes <= j < k ==> attempt(j).Throws?)
        {
          assert retryTimes < k;
        }
      }
    } else if retryTimes <= 3 && fuel > 0 {
      ConvertedIff(queue, id, retryTimes, attempt, fuel - 1);
    }
  }
}
