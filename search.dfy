/** The post-processing loop of the `search` endpoint (Backend/index.py):
    the ranked matches are walked once, a map from video id to the starts
    accepted so far decides which ones survive, and each survivor becomes a
    result record with a timestamped watch link. Computing the query
    embedding and querying the vector store are outside this model: the
    store's answer is the input. */
module Search {
  import opened Text
  import opened Chunks
  import opened Dedup

  /** One entry of the endpoint's `results` list. */
  datatype SearchResult = SearchResult(videoId: string, start: int, text: string, link: string)

  const WATCH_PREFIX: string := "https://www.youtube.com/watch?v="

  /** `f"https://www.youtube.com/watch?v={video_id}&t={start}s"` */
  function WatchLink(videoId: string, start: int): (link: string)
    ensures |link| > |WATCH_PREFIX| && link[..|WATCH_PREFIX|] == WATCH_PREFIX
    ensures link[|link| - 1] == 's'
  {
    WATCH_PREFIX + videoId + "&t=" + IntToString(start) + "s"
  }

  /** Reads a watch link back into its video id and start second. */
  function ParseWatchLink(link: string): Option<(string, int)> {
    if |link| < |WATCH_PREFIX| + 1 || link[..|WATCH_PREFIX|] != WATCH_PREFIX || link[|link| - 1] != 's' then None
    else ParseLinkBody(link[|WATCH_PREFIX|..|link| - 1])
  }

  /** Reads `<video id>&t=<start>`, splitting at the last `=`. */
  function ParseLinkBody(body: string): Option<(string, int)> {
    match LastIndexOf(body, '=')
    case None => None
    case Some(k) =>
      if k < 2 || body[k - 2] != '&' || body[k - 1] != 't' then None
      else
        match ParseInt(body[k + 1..])
        case None => None
        case Some(t) => Some((body[..k - 2], t))
  }

  lemma LinkBodyRoundTrip(videoId: string, start: int)
    ensures ParseLinkBody(videoId + "&t=" + IntToString(start)) == Some((videoId, start))
  {
    var digits := IntToString(start);
    var head := videoId + "&t";
    var body := videoId + "&t=" + digits;
    assert body == head + ['='] + digits;
    LastIndexOfJoin(head, '=', digits);
    var k := |videoId| + 2;
    assert body[k - 2] == '&' && body[k - 1] == 't';
    assert body[..k - 2] == videoId;
    assert body[k + 1..] == digits;
    ParseIntToString(start);
  }

  /** The prefix and the final `s` of a link are stripped before the body is read. */
  lemma ParseWatchLinkBody(body: string)
    ensures ParseWatchLink(WATCH_PREFIX + body + "s") == ParseLinkBody(body)
  {
    var link := WATCH_PREFIX + body + "s";
    assert link[..|WATCH_PREFIX|] == WATCH_PREFIX;
    assert link[|WATCH_PREFIX|..|link| - 1] == body;
  }

  /** A link determines the video and the second it points at. */
  lemma WatchLinkRoundTrip(videoId: string, start: int)
    ensures ParseWatchLink(WatchLink(videoId, start)) == Some((videoId, start))
  {
    var body := videoId + "&t=" + IntToString(start);
    assert WatchLink(videoId, start) == WATCH_PREFIX + body + "s";
    ParseWatchLinkBody(body);
    LinkBodyRoundTrip(videoId, start);
  }

  /** The record built for an accepted match. */
  function ToResult(m: Metadata): SearchResult {
    SearchResult(m.videoId, m.start, m.text, WatchLink(m.videoId, m.start))
  }

  function ToResults(acc: seq<Metadata>): seq<SearchResult> {
    seq(|acc|, j requires 0 <= j < |acc| => ToResult(acc[j]))
  }

  /** The starts of the matches of `acc` from video `v`, in order. */
  function StartsOf(acc: seq<Metadata>, v: string): seq<int>
    decreases |acc|
  {
    if acc == [] then []
    else
      var last := acc[|acc| - 1];
      StartsOf(acc[..|acc| - 1], v) + (if last.videoId == v then [last.start] else [])
  }

  function VideoIds(acc: seq<Metadata>): set<string> {
    set j | 0 <= j < |acc| :: acc[j].videoId
  }

  /** What `seen` holds after the matches `acc` were accepted: for every video
      among them, the starts accepted for it in acceptance order. */
  function SeenMap(acc: seq<Metadata>): map<string, seq<int>> {
    map v | v in VideoIds(acc) :: StartsOf(acc, v)
  }

  /** The starts recorded for a video are exactly those of its accepted matches. */
  lemma {:induction false} StartsOfMembers(acc: seq<Metadata>, v: string, s: int)
    ensures s in StartsOf(acc, v) <==> exists a :: a in acc && a.videoId == v && a.start == s
    decreases |acc|
  {
    if acc != [] {
      var init := acc[..|acc| - 1];
      var last := acc[|acc| - 1];
      StartsOfMembers(init, v, s);
      assert acc == init + [last];
      if s in StartsOf(init, v) {
        var a :| a in init && a.videoId == v && a.start == s;
        assert a in acc;
      }
      if exists a :: a in acc && a.videoId == v && a.start == s {
        var a :| a in acc && a.videoId == v && a.start == s;
        if a != last {
          assert a in init;
        }
      }
    }
  }

  lemma {:induction false} StartsOfAbsent(acc: seq<Metadata>, v: string)
    requires v !in VideoIds(acc)
    ensures StartsOf(acc, v) == []
    decreases |acc|
  {
    if acc != [] {
      var init := acc[..|acc| - 1];
      assert VideoIds(init) <= VideoIds(acc) by {
        assert forall j :: 0 <= j < |init| ==> init[j] == acc[j];
      }
      assert acc[|acc| - 1].videoId in VideoIds(acc);
      StartsOfAbsent(init, v);
    }
  }

  /** `seen.setdefault(video_id, []).append(start)` keeps `seen` equal to SeenMap. */
  lemma SeenMapAppend(acc: seq<Metadata>, m: Metadata)
    ensures var seen := SeenMap(acc);
      SeenMap(acc + [m]) ==
        seen[m.videoId := (if m.videoId in seen then seen[m.videoId] else []) + [m.start]]
  {
    var seen := SeenMap(acc);
    var acc' := acc + [m];
    assert acc'[..|acc|] == acc;
    assert VideoIds(acc') == VideoIds(acc) + {m.videoId} by {
      assert forall j :: 0 <= j < |acc| ==> acc'[j] == acc[j];
    }
    if m.videoId !in seen {
      StartsOfAbsent(acc, m.videoId);
    }
    var expected := seen[m.videoId := (if m.videoId in seen then seen[m.videoId] else []) + [m.start]];
    forall w | w in VideoIds(acc')
      ensures SeenMap(acc')[w] == expected[w]
    {
      assert StartsOf(acc', w) == StartsOf(acc, w) + (if m.videoId == w then [m.start] else []);
    }
    assert SeenMap(acc').Keys == expected.Keys;
  }

  /** The test of the loop: the video has no start recorded yet, or every
      start recorded for it is more than PROXIMITY seconds away. */
  predicate FarFromSeen(seen: map<string, seq<int>>, m: Metadata) {
    m.videoId !in seen || forall s :: s in seen[m.videoId] ==> Abs(m.start - s) > PROXIMITY
  }

  /** The test the loop performs on `seen` is the admissibility of the match. */
  lemma SeenTest(acc: seq<Metadata>, m: Metadata)
    ensures Admissible(acc, m) <==> FarFromSeen(SeenMap(acc), m)
  {
    var seen := SeenMap(acc);
    var v := m.videoId;
    if Admissible(acc, m) && v in seen {
      forall s | s in seen[v] ensures Abs(m.start - s) > PROXIMITY {
        StartsOfMembers(acc, v, s);
      }
    }
    if !Admissible(acc, m) {
      var a :| a in acc && Close(a, m);
      var j :| 0 <= j < |acc| && acc[j] == a;
      assert v in VideoIds(acc);
      StartsOfMembers(acc, v, a.start);
    }
  }

  /** One turn of the loop of `search`, as far as `seen` is concerned: the
      test and the `setdefault(...).append` move `seen` from the matches
      accepted among the first `i` to those accepted among the first `i + 1`. */
  lemma SeenStep(ms: seq<Metadata>, i: nat)
    requires i < |ms|
    ensures var seen := SeenMap(Accepted(ms[..i])); var m := ms[i];
      SeenMap(Accepted(ms[..i + 1])) ==
        if FarFromSeen(seen, m)
        then seen[m.videoId := (if m.videoId in seen then seen[m.videoId] else []) + [m.start]]
        else seen
  {
    var acc := Accepted(ms[..i]);
    var m := ms[i];
    assert Accepted(ms[..i + 1]) == if Admissible(acc, m) then acc + [m] else acc by {
      assert ms[..i + 1][..i] == ms[..i] && ms[..i + 1][i] == m;
      AcceptedStep(ms[..i + 1]);
    }
    SeenTest(acc, m);
    if Admissible(acc, m) {
      SeenMapAppend(acc, m);
    }
  }

  /** One turn of the loop of `search`, as far as `final` is concerned. */
  lemma ResultsStep(ms: seq<Metadata>, i: nat)
    requires i < |ms|
    ensures var acc := Accepted(ms[..i]); var m := ms[i];
      ToResults(Accepted(ms[..i + 1])) ==
        if Admissible(acc, m) then ToResults(acc) + [ToResult(m)] else ToResults(acc)
  {
    var acc := Accepted(ms[..i]);
    var m := ms[i];
    assert Accepted(ms[..i + 1]) == if Admissible(acc, m) then acc + [m] else acc by {
      assert ms[..i + 1][..i] == ms[..i] && ms[..i + 1][i] == m;
      AcceptedStep(ms[..i + 1]);
    }
    if Admissible(acc, m) {
      assert ToResults(acc + [m]) == ToResults(acc) + [ToResult(m)];
    }
  }

  /** How many pairs `zip(ids, metadatas)` yields. */
  function ZipLength(ids: seq<string>, metadatas: seq<Metadata>): (n: nat)
    ensures n <= |ids| && n <= |metadatas|
    ensures n == |ids| || n == |metadatas|
  {
    if |ids| < |metadatas| then |ids| else |metadatas|
  }

  /** The loop of `search` over the store's ranked ids and metadata. */
  method Search(ids: seq<string>, metadatas: seq<Metadata>) returns (final: seq<SearchResult>)
    ensures final == ToResults(Accepted(metadatas[..ZipLength(ids, metadatas)]))
    ensures |final| <= |ids| && |final| <= |metadatas|
    ensures forall a, b :: 0 <= a < b < |final| && final[a].videoId == final[b].videoId ==>
      Abs(final[b].start - final[a].start) > PROXIMITY
    ensures forall r :: r in final ==> r.link == WatchLink(r.videoId, r.start)
  {
    var n := ZipLength(ids, metadatas);
    var ms := metadatas[..n];
    var seen: map<string, seq<int>> := map[];
    final := [];
    var i := 0;
    while i < n
      invariant 0 <= i <= n
      invariant seen == SeenMap(Accepted(ms[..i]))
      invariant final == ToResults(Accepted(ms[..i]))
    {
      var metadata := metadatas[i];
      var videoId := metadata.videoId;
      var start := metadata.start;
      ghost var far := FarFromSeen(seen, metadata);
      assert ms[i] == metadata;
      assert SeenMap(Accepted(ms[..i + 1])) ==
        if far then seen[videoId := (if videoId in seen then seen[videoId] else []) + [start]] else seen by {
        SeenStep(ms, i);
      }
      assert ToResults(Accepted(ms[..i + 1])) == if far then final + [ToResult(metadata)] else final by {
        ResultsStep(ms, i);
        SeenTest(Accepted(ms[..i]), metadata);
      }
      if FarFromSeen(seen, metadata) {
        seen := seen[videoId := (if videoId in seen then seen[videoId] else []) + [start]];
        final := final + [ToResult(metadata)];
      }
      i := i + 1;
    }
    assert ms[..n] == ms;
    ResultsFacts(ms);
  }

  /** What the result list promises: no longer than the matches, pairwise
      separated per video, and every link built from the record's own fields. */
  lemma ResultsFacts(ms: seq<Metadata>)
    ensures var rs := ToResults(Accepted(ms));
      |rs| <= |ms| &&
      (forall j :: 0 <= j < |rs| ==>
        rs[j].videoId == Accepted(ms)[j].videoId && rs[j].start == Accepted(ms)[j].start &&
        rs[j].text == Accepted(ms)[j].text) &&
      (forall a, b :: 0 <= a < b < |rs| && rs[a].videoId == rs[b].videoId ==>
        Abs(rs[b].start - rs[a].start) > PROXIMITY) &&
      (forall r :: r in rs ==> r.link == WatchLink(r.videoId, r.start))
  {
    var acc := Accepted(ms);
    var rs := ToResults(acc);
    forall r | r in rs ensures r.link == WatchLink(r.videoId, r.start) {
      var j :| 0 <= j < |rs| && rs[j] == r;
      assert r == ToResult(acc[j]);
    }
    AcceptedSeparated(ms);
    forall a, b | 0 <= a < b < |rs| && rs[a].videoId == rs[b].videoId
      ensures Abs(rs[b].start - rs[a].start) > PROXIMITY
    {
      assert !Close(acc[a], acc[b]);
    }
  }
}
