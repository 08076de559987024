/**
 * `POST` in app/api/youtube/route.js: the chain of gates between a pasted
 * URL and a course. The Data API request is a parameter (`lookup`), so the
 * model can say whether it was made and with which video id.
 */
module YoutubeRoute {
  import opened Wrappers
  import opened VideoId
  import opened ChapterLine
  import opened Scanner
  import opened IsoDuration
  import opened SegmentBuilder

  /** What the Data API request for one video id yields. */
  datatype Metadata =
    | Found(title: string, description: string, duration: string)  // the first item
    | NoItems                                                       // `items` empty or absent
    | ApiError(status: int, message: string)                        // `res.ok` false
    | FetchFailed                                                   // the request or its body threw

  /** The error answers of the route. */
  datatype Failure =
    | MissingApiKey
    | InvalidUrl
    | ApiFailure(status: int, message: string)
    | VideoNotFound
    | NoTimestamps
    | ProcessingFailed

  /** The HTTP status of each error answer. */
  function Status(f: Failure): (code: int)
    ensures f.ApiFailure? ==> code == f.status
    ensures !f.ApiFailure? ==> code in {400, 404, 500}
  {
    match f
    case MissingApiKey => 500
    case InvalidUrl => 400
    case ApiFailure(status, _) => status
    case VideoNotFound => 404
    case NoTimestamps => 400
    case ProcessingFailed => 500
  }

  /** The `error` text of each error answer. Only an upstream failure's text
      starts with "API Error: ", so a client can tell those apart. */
  function ErrorText(f: Failure): (r: string)
    ensures |r| >= 11
    ensures f.ApiFailure? <==> r[..11] == "API Error: "
  {
    match f
    case MissingApiKey => NotUpstream("YouTube API key is not configured.")
    case InvalidUrl => NotUpstream("Invalid YouTube URL provided.")
    case ApiFailure(_, message) =>
      var r := "API Error: " + message;
      assert r[..11] == "API Error: ";
      r
    case VideoNotFound => NotUpstream("Video not found.")
    case NoTimestamps => NotUpstream("No valid timestamps found " + "in the video description.")
    case ProcessingFailed => NotUpstream("Failed to process the YouTube video.")
  }

  /** A fixed error text, which does not start with "API Error: ". */
  function NotUpstream(t: string): (r: string)
    requires |t| >= 11 && t[0] != 'A'
    ensures r == t && r[..11] != "API Error: "
  {
    assert t[..11][0] == t[0];
    t
  }

  datatype Response =
    | Course(videoId: string, title: string, segments: seq<Segment>)
    | Error(failure: Failure)

  /** The answer, and the video id the Data API was asked about, if any. */
  datatype Outcome = Outcome(response: Response, fetched: Option<string>)

  /** An environment key that JavaScript treats as missing: absent or empty. */
  predicate KeyMissing(apiKey: Option<string>) {
    apiKey.None? || apiKey.value == ""
  }

  /** The route: the key gate, the URL gate, the request, the item gate,
      the timestamp gate, then the duration and the segment builder. A
      duration without "PT" throws inside the `try` and is answered like any
      other failure there, with 500. */
  function Post(apiKey: Option<string>, youtubeUrl: string, lookup: (string, string) -> Metadata): (r: Outcome)
    ensures KeyMissing(apiKey) ==> r == Outcome(Error(MissingApiKey), None)
    ensures r.fetched.Some? ==> !KeyMissing(apiKey) && r.fetched == ExtractVideoId(youtubeUrl)
    ensures r.response.Course? ==>
      r.fetched == Some(r.response.videoId) && IsVideoId(r.response.videoId) && r.response.segments != []
  {
    if KeyMissing(apiKey) then Outcome(Error(MissingApiKey), None)
    else match ExtractVideoId(youtubeUrl)
      case None => Outcome(Error(InvalidUrl), None)
      case Some(videoId) => Outcome(Answer(videoId, lookup(videoId, apiKey.value)), Some(videoId))
  }

  /** The part of the `try` block after the request: the upstream status,
      the item gate, then the chapters. */
  function Answer(videoId: string, m: Metadata): (r: Response)
    ensures r.Course? ==> r.videoId == videoId && r.segments != []
  {
    match m
    case FetchFailed => Error(ProcessingFailed)
    case ApiError(status, message) => Error(ApiFailure(status, message))
    case NoItems => Error(VideoNotFound)
    case Found(title, description, duration) => Chapters(videoId, title, description, duration)
  }

  /** The timestamp gate, then the duration and the segment builder. */
  function Chapters(videoId: string, title: string, description: string, duration: string): (r: Response)
    ensures r.Course? ==> r.videoId == videoId && r.segments != []
  {
    var raw := Candidates(description);
    if raw == [] then Error(NoTimestamps)
    else match ParseIsoDuration(duration)
      case None => Error(ProcessingFailed)
      case Some(total) => Course(videoId, title, BuildSegments(raw, total))
  }

  /** A URL the extractor rejects is answered with 400 and no request. */
  lemma InvalidUrlBeforeFetch(apiKey: Option<string>, youtubeUrl: string, lookup: (string, string) -> Metadata)
    requires !KeyMissing(apiKey)
    ensures ExtractVideoId(youtubeUrl).None? <==> Post(apiKey, youtubeUrl, lookup) == Outcome(Error(InvalidUrl), None)
    ensures ExtractVideoId(youtubeUrl).None? ==> Status(Error(InvalidUrl).failure) == 400
  {
  }

  /** With a key and a recognised URL the Data API is asked about exactly
      that video id, with that key. */
  lemma FetchKeyedById(apiKey: Option<string>, youtubeUrl: string, lookup: (string, string) -> Metadata)
    requires !KeyMissing(apiKey) && ExtractVideoId(youtubeUrl).Some?
    ensures Post(apiKey, youtubeUrl, lookup).fetched == ExtractVideoId(youtubeUrl)
  {
  }

  /** Upstream failures: a non-OK answer keeps its status, an empty item
      list is 404 and a request that throws is 500. */
  lemma UpstreamFailures(apiKey: Option<string>, youtubeUrl: string, lookup: (string, string) -> Metadata)
    requires !KeyMissing(apiKey) && ExtractVideoId(youtubeUrl).Some?
    ensures var m := lookup(ExtractVideoId(youtubeUrl).value, apiKey.value);
      var r := Post(apiKey, youtubeUrl, lookup).response;
      && (m.ApiError? ==> r.Error? && Status(r.failure) == m.status && ErrorText(r.failure) == "API Error: " + m.message)
      && (m.NoItems? ==> r.Error? && Status(r.failure) == 404)
      && (m.FetchFailed? ==> r.Error? && Status(r.failure) == 500)
  {
  }

  /** A description without chapters is answered with 400 whatever the
      duration says, even one that could not be parsed: the timestamp gate
      comes before the duration is read. */
  lemma NoTimestampsBeforeDuration(apiKey: Option<string>, youtubeUrl: string, lookup: (string, string) -> Metadata)
    requires !KeyMissing(apiKey) && ExtractVideoId(youtubeUrl).Some?
    requires lookup(ExtractVideoId(youtubeUrl).value, apiKey.value).Found?
    requires Candidates(lookup(ExtractVideoId(youtubeUrl).value, apiKey.value).description) == []
    ensures Post(apiKey, youtubeUrl, lookup).response == Error(NoTimestamps)
  {
    var m := lookup(ExtractVideoId(youtubeUrl).value, apiKey.value);
    PostAnswers(apiKey, youtubeUrl, lookup);
    TimestampGate(ExtractVideoId(youtubeUrl).value, m.title, m.description, m.duration);
  }

  /** Past the two gates, the answer is the one for the fetched metadata. */
  lemma PostAnswers(apiKey: Option<string>, youtubeUrl: string, lookup: (string, string) -> Metadata)
    requires !KeyMissing(apiKey) && ExtractVideoId(youtubeUrl).Some?
    ensures var videoId := ExtractVideoId(youtubeUrl).value;
      Post(apiKey, youtubeUrl, lookup) == Outcome(Answer(videoId, lookup(videoId, apiKey.value)), Some(videoId))
  {
  }

  /** The timestamp gate alone: no chapters means 400, for any duration. */
  lemma TimestampGate(videoId: string, title: string, description: string, duration: string)
    requires Candidates(description) == []
    ensures Chapters(videoId, title, description, duration) == Error(NoTimestamps)
    ensures Status(Chapters(videoId, title, description, duration).failure) == 400
  {
  }

  /** A missing key is answered first, with 500, and nothing is fetched. */
  lemma MissingKeyFirst(apiKey: Option<string>, youtubeUrl: string, lookup: (string, string) -> Metadata)
    requires KeyMissing(apiKey)
    ensures Post(apiKey, youtubeUrl, lookup).fetched.None?
    ensures Post(apiKey, youtubeUrl, lookup).response.Error?
    ensures Status(Post(apiKey, youtubeUrl, lookup).response.failure) == 500
  {
  }

  /** Chapters found but a duration without "PT": the route answers 500. */
  lemma UnparsableDurationFails(apiKey: Option<string>, youtubeUrl: string, lookup: (string, string) -> Metadata)
    requires !KeyMissing(apiKey) && ExtractVideoId(youtubeUrl).Some?
    requires lookup(ExtractVideoId(youtubeUrl).value, apiKey.value).Found?
    requires Candidates(lookup(ExtractVideoId(youtubeUrl).value, apiKey.value).description) != []
    requires forall j | 0 <= j <= |lookup(ExtractVideoId(youtubeUrl).value, apiKey.value).duration| ::
      !JsStrings.OccursAt(lookup(ExtractVideoId(youtubeUrl).value, apiKey.value).duration, "PT", j)
    ensures Post(apiKey, youtubeUrl, lookup).response == Error(ProcessingFailed)
    ensures Status(Post(apiKey, youtubeUrl, lookup).response.failure) == 500
  {
    var videoId := ExtractVideoId(youtubeUrl).value;
    var m := lookup(videoId, apiKey.value);
    assert Post(apiKey, youtubeUrl, lookup).response == Answer(videoId, m);
    UnparsableChapters(videoId, m.title, m.description, m.duration);
  }

  /** The chapter step alone: chapters found but the duration parse
      returns null (no "PT"), so reading its groups throws and the catch
      answers 500. */
  lemma UnparsableChapters(videoId: string, title: string, description: string, duration: string)
    requires Candidates(description) != [] && ParseIsoDuration(duration).None?
    ensures Chapters(videoId, title, description, duration) == Error(ProcessingFailed)
    ensures Status(Chapters(videoId, title, description, duration).failure) == 500
  {
    var answered := Chapters(videoId, title, description, duration);
    assert answered == Error(ProcessingFailed);
    ProcessingFailedStatus(answered);
  }

  /** The status of a processing failure, on its own so that the solver
      need not look inside the response that carries it. */
  lemma ProcessingFailedStatus(answered: Response)
    requires answered == Error(ProcessingFailed)
    ensures Status(answered.failure) == 500
  {
  }

  /** A course is answered exactly when every gate passes, and it carries
      the video id, the item's title and the built segments; the segments
      are contiguous, end at the video's duration and their durations add
      up to it minus the first chapter's start. */
  lemma SuccessIff(apiKey: Option<string>, youtubeUrl: string, lookup: (string, string) -> Metadata)
    ensures Post(apiKey, youtubeUrl, lookup).response.Course? <==>
      && !KeyMissing(apiKey)
      && ExtractVideoId(youtubeUrl).Some?
      && lookup(ExtractVideoId(youtubeUrl).value, apiKey.value).Found?
      && Candidates(lookup(ExtractVideoId(youtubeUrl).value, apiKey.value).description) != []
      && ParseIsoDuration(lookup(ExtractVideoId(youtubeUrl).value, apiKey.value).duration).Some?
    ensures Post(apiKey, youtubeUrl, lookup).response.Course? ==>
      var m := lookup(ExtractVideoId(youtubeUrl).value, apiKey.value);
      var c := Post(apiKey, youtubeUrl, lookup).response;
      var total := ParseIsoDuration(m.duration).value;
      && c.videoId == ExtractVideoId(youtubeUrl).value
      && c.title == m.title
      && c.segments == BuildSegments(Candidates(m.description), total)
      && Contiguous(c.segments)
      && c.segments[|c.segments| - 1].end_seconds == total
      && TotalDuration(c.segments) == total - c.segments[0].start_seconds
  {
    var r := Post(apiKey, youtubeUrl, lookup);
    if r.response.Course? {
      var m := lookup(ExtractVideoId(youtubeUrl).value, apiKey.value);
      DurationsSumToTotal(Candidates(m.description), ParseIsoDuration(m.duration).value);
    }
  }

  /** A short link to a fifteen-minute video whose description lists three
      chapters gives the course of three segments: 0 to 150, 150 to 600 and
      600 to 900 seconds. */
  lemma ExampleCourse(lookup: (string, string) -> Metadata)
    requires lookup("dQw4w9WgXcQ", "key") == Found("Lesson", ExampleDescription(), "PT15M0S")
    ensures Post(Some("key"), "https://youtu.be/dQw4w9WgXcQ?t=10", lookup)
         == Outcome(Course("dQw4w9WgXcQ", "Lesson",
              [Segment(0, 150, 150, "Intro", false, ""),
               Segment(150, 600, 450, "Deep Dive", false, ""),
               Segment(600, 900, 300, "Outro", false, "")]),
            Some("dQw4w9WgXcQ"))
  {
    ExampleShortLink();
    PostAnswers(Some("key"), "https://youtu.be/dQw4w9WgXcQ?t=10", lookup);
    ExampleChapters();
  }

  lemma ExampleChapters()
    ensures Chapters("dQw4w9WgXcQ", "Lesson", ExampleDescription(), "PT15M0S")
         == Course("dQw4w9WgXcQ", "Lesson",
              [Segment(0, 150, 150, "Intro", false, ""),
               Segment(150, 600, 450, "Deep Dive", false, ""),
               Segment(600, 900, 300, "Outro", false, "")])
  {
    ExampleCandidates();
    ExampleFifteenMinutes("PT15M0S");
    ExampleBuild();
  }

  lemma ExampleBuild()
    ensures BuildSegments([Candidate(0, "Intro"), Candidate(150, "Deep Dive"), Candidate(600, "Outro")], 900)
         == [Segment(0, 150, 150, "Intro", false, ""),
             Segment(150, 600, 450, "Deep Dive", false, ""),
             Segment(600, 900, 300, "Outro", false, "")]
  {
  }
}
