/** The API server's conversion route on a numeric id: answer from the
    in-memory cache when it has the id, otherwise run the scheduler and
    answer with the video it stored, or with the failure page. */
module ApiServer {
  import opened Scheduler
  import opened OutputCache

  /** The response: the video bytes, the status-500 failure page, or none
      yet (the request is still waiting for admission). */
  datatype Response = Video(opt: seq<bv8>) | ConvertFailure | Pending

  /** A handled request: the response, the attempts it ran and the cache
      afterwards. */
  datatype Served = Served(response: Response, attempts: nat, videos: Store)

  /** The route handler on cache `videos` and in-flight queue `queue`. A
      converted video is stored by `updateOutputQueue` and the response is
      read back from the cache. */
  function Serve(videos: Store, queue: seq<string>, id: string, attempt: nat -> Outcome, fuel: nat): (s: Served)
    requires OutputCache.WellFormed(videos)
    ensures OutputCache.WellFormed(s.videos)
  {
    if id in videos.entries then Served(Video(videos.entries[id].opt), 0, videos)
    else
      var run := Convert(queue, id, 0, attempt, fuel);
      match run.result
      case Converted(ts, video) =>
        var after := Update(videos, id, CachedVideo(ts, video));
        UpdateStoresNewVideo(videos, id, CachedVideo(ts, video));
        Served(Video(after.entries[id].opt), run.attempts, after)
      case StillWaiting => Served(Pending, run.attempts, videos)
      case _ => Served(ConvertFailure, run.attempts, videos)
  }

  /** The server's two module-level structures. */
  class Server {
    const inFlight: ConvertQueue
    const videos: OutputQueue

    ghost predicate Valid()
      reads this, inFlight, videos
    {
      inFlight.Valid() && videos.Valid()
    }

    constructor ()
      ensures Valid() && inFlight.queue == [] && videos.keys == []
    {
      inFlight := new ConvertQueue();
      videos := new OutputQueue();
    }

    /** `GET /ugoira2mp4/<id>.mp4`. */
    method HandleRequest(id: string, attempt: nat -> Outcome, fuel: nat) returns (response: Response)
      requires Valid()
      modifies inFlight, videos
      ensures Valid() && inFlight.queue == old(inFlight.queue)
      ensures var s := Serve(Store(old(videos.keys), old(videos.entries)), old(inFlight.queue), id, attempt, fuel);
        response == s.response && Store(videos.keys, videos.entries) == s.videos
    {
      if videos.Has(id) {
        response := Video(videos.entries[id].opt);
        return;
      }
      var r := inFlight.Ugoira2Mp4(id, 0, attempt, fuel);
      if r.Converted? {
        videos.UpdateOutputQueue(id, r.ts, r.video);
        UpdateStoresNewVideo(Store(old(videos.keys), old(videos.entries)), id, CachedVideo(r.ts, r.video));
        response := Video(videos.entries[id].opt);
      } else if r.StillWaiting? {
        response := Pending;
      } else {
        response := ConvertFailure;
      }
    }
  }

  /** A cached id is answered with the stored video, no conversion is
      attempted and the cache is left as it was. */
  lemma CacheHitAnswersStored(videos: Store, queue: seq<string>, id: string, attempt: nat -> Outcome, fuel: nat)
    requires OutputCache.WellFormed(videos) && id in videos.entries
    ensures Serve(videos, queue, id, attempt, fuel) == Served(Video(videos.entries[id].opt), 0, videos)
  {
  }

  /** A conversion's video is what the client gets and what the cache now
      holds for the id. */
  lemma ConvertedIsServedAndCached(videos: Store, queue: seq<string>, id: string, attempt: nat -> Outcome, fuel: nat)
    requires OutputCache.WellFormed(videos) && id !in videos.entries
    requires Convert(queue, id, 0, attempt, fuel).result.Converted?
    ensures var c := Convert(queue, id, 0, attempt, fuel).result;
      var s := Serve(videos, queue, id, attempt, fuel);
      s.response == Video(c.video) &&
      id in s.videos.entries && s.videos.entries[id] == CachedVideo(c.ts, c.video)
  {
    var c := Convert(queue, id, 0, attempt, fuel).result;
    UpdateStoresNewVideo(videos, id, CachedVideo(c.ts, c.video));
  }

  /** An uncached id that is not converted gets the failure page (or no
      answer while it waits) and leaves the cache as it was. */
  lemma NotConvertedFails(videos: Store, queue: seq<string>, id: string, attempt: nat -> Outcome, fuel: nat)
    requires OutputCache.WellFormed(videos) && id !in videos.entries
    requires !Convert(queue, id, 0, attempt, fuel).result.Converted?
    ensures var s := Serve(videos, queue, id, attempt, fuel);
      s.videos == videos &&
      s.response == if Convert(queue, id, 0, attempt, fuel).result.StillWaiting? then Pending else ConvertFailure
  {
  }

  /** The cache never grows past four videos. */
  lemma ServeKeepsAtMostFour(videos: Store, queue: seq<string>, id: string, attempt: nat -> Outcome, fuel: nat)
    requires OutputCache.WellFormed(videos) && |videos.keys| <= 4
    ensures |Serve(videos, queue, id, attempt, fuel).videos.keys| <= 4
  {
    var run := Convert(queue, id, 0, attempt, fuel);
    if id !in videos.entries && run.result.Converted? {
      UpdateKeepsAtMostFour(videos, id, CachedVideo(run.result.ts, run.result.video));
    }
  }

  /** Once a request for an id has been answered with a video, the next
      request for it is a cache hit with the same video and no attempt. */
  lemma RepeatedRequestHitsCache(videos: Store, queue: seq<string>, id: string,
                                 attempt: nat -> Outcome, fuel: nat, attempt': nat -> Outcome, fuel': nat)
    requires OutputCache.WellFormed(videos)
    requires Serve(videos, queue, id, attempt, fuel).response.Video?
    ensures var first := Serve(videos, queue, id, attempt, fuel);
      Serve(first.videos, queue, id, attempt', fuel') == Served(first.response, 0, first.videos)
  {
    if id !in videos.entries {
      var c := Convert(queue, id, 0, attempt, fuel).result;
      UpdateStoresNewVideo(videos, id, CachedVideo(c.ts, c.video));
    }
  }
}
