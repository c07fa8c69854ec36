# Youtube_Bot search core in Dafny

This project models the small amount of original logic in the Youtube_Bot
service and its chat front end.

- **Video search post-processing** (`search` in `Backend/index.py`). The
  vector store returns matches best first. One pass walks them while keeping
  `seen`, a map from video id to the starts accepted so far. A match is kept
  only if every start already accepted for its video is more than 10 seconds
  away. Each kept match becomes a record with a
  `https://www.youtube.com/watch?v=<id>&t=<start>s` link.
  - `Dedup` states the rule as a specification on values. `Kept` gives the
    positions of the kept matches and `Accepted` the matches themselves.
  - `Search.Search` is the loop itself: a `map<string, seq<int>>` and an
    output sequence, proved equal to the specification.
- **Chunk construction during ingestion** (`ingest_video`). Every transcript
  line gives one document text, one metadata record and one id
  `<video id>_<i>` (`Chunks.IngestVideo`).
- **Chat helpers** (`SearchBot.jsx`):
  - `formatTime` renders seconds as `m:ss` (`SearchBot.FormatTime`).
    `SearchBot.ParseClock` reads such a label back; it is not in the
    component and exists to state that no information is lost.
  - `addMessage` and `updateMessage` replace the `messages` state through
    pure updaters (`SearchBot.Added`, `SearchBot.Updated`), wrapped in the
    class `SearchBot.Chat`.
  - A message is a map from field names to values, so the object spread
    `{ ...m, ...updates }` is the map union `m + updates`.
  - The clock values behind `Date.now()` and `new Date()` are parameters.

`Text` holds decimal rendering (Python's `str` and JavaScript's `toString`
on integers) and the parsers used to state round trips.

The threshold is the constant `Dedup.PROXIMITY` (10), hard-coded in the
code. Only the video `search` endpoint filters its matches; `Backend/index.py`
has no other search endpoint.

## Model

| member | source | states |
|---|---|---|
| `Chunks.IngestVideo` | Backend/index.py:39-48 | texts, metadatas and ids are each as long as the transcript; entry i gives text i, metadata {video_id, start, text} and id `video_id + "_" + str(i)`; the ids are pairwise distinct |
| `Chunks.ChunkId` | Backend/index.py:48 | `f"{video_id}_{i}"`: the id starts with the video id followed by an underscore, then the decimal index |
| `Chunks.ChunkIdRoundTrip` | Backend/index.py:48 | splitting an id at its last underscore gives back the video id and the chunk index |
| `Chunks.ChunkIdInjective` | Backend/index.py:48 | two chunk ids are equal only for the same video and the same index, even across videos |
| `Dedup.Accepted` | Backend/index.py:69-81 | the pass never yields more results than there are matches |
| `Dedup.Kept` | Backend/index.py:71-76 | there is one kept position per accepted match; the j-th kept position is a position of the input and holds the j-th accepted match |
| `Dedup.KeptIncreasing` | Backend/index.py:71-76 | the kept positions are strictly increasing, so the results keep the ranking order |
| `Dedup.AcceptedIsSubsequence` | Backend/index.py:71-81 | the accepted matches are an order-preserving subsequence of the matches (subsequence defined independently of the pass) |
| `Dedup.AcceptedSeparated` | Backend/index.py:74 | any two accepted matches of one video start more than 10 seconds apart |
| `Dedup.KeptPrefix` | Backend/index.py:71-76 | which of the first n matches are kept does not depend on later matches |
| `Dedup.KeptExactly` | Backend/index.py:74-76 | the match at position i is kept if and only if it is admissible against the matches accepted before it |
| `Dedup.KeptByPosition` | Backend/index.py:74 | the match at position i is kept if and only if no kept match before it is from the same video within 10 seconds |
| `Dedup.FirstOfVideoKept` | Backend/index.py:74 | the first match, and the first match of every video, is always kept |
| `Dedup.SeparatedAccepted` | Backend/index.py:74 | matches that are already pairwise separated are all kept |
| `Dedup.AcceptedIdempotent` | Backend/index.py:69-81 | filtering the filtered list again changes nothing |
| `Dedup.ClusterExample` | Backend/index.py:71-76 | A@10, A@15, A@50, B@10 gives A@10, A@50, B@10 |
| `Search.WatchLink` | Backend/index.py:80 | the link starts with `https://www.youtube.com/watch?v=` and ends in `s`; in between come the video id, `&t=` and the start in decimal |
| `Search.ToResult` | Backend/index.py:76-81 | definition: the record of a match carries its video id, start and text, and the watch link built from the video id and start |
| `Search.ToResults` | Backend/index.py:70-81 | definition: one record per accepted match, in acceptance order |
| `Search.FarFromSeen` | Backend/index.py:74 | definition of the loop's test: the video has no entry in `seen`, or every start recorded for it is more than 10 seconds away |
| `Search.ZipLength` | Backend/index.py:71 | the number of pairs `zip` yields: no more than either list, and equal to the shorter one |
| `Search.WatchLinkRoundTrip` | Backend/index.py:80 | the watch link reads back to the video id and start it was built from |
| `Search.StartsOfMembers` | Backend/index.py:75 | the starts recorded for a video are exactly the starts of its accepted matches |
| `Search.SeenMapAppend` | Backend/index.py:75 | `seen.setdefault(v, []).append(start)` turns the seen map of the accepted matches into that of the accepted matches plus the new one |
| `Search.SeenTest` | Backend/index.py:74 | the test on `seen` holds exactly when the match is admissible against every accepted match |
| `Search.SeenStep` | Backend/index.py:74-75 | after each turn, `seen[v]` lists the accepted starts of video v in acceptance order |
| `Search.ResultsStep` | Backend/index.py:74-81 | after each turn, `final` is the record list of the matches accepted so far |
| `Search.Search` | Backend/index.py:69-82 | the result is the records of the accepted matches among the zipped pairs; it is no longer than either input, and empty when there are no matches; same-video results are more than 10 seconds apart; every link is the watch link of its record's video id and start |
| `Search.ResultsFacts` | Backend/index.py:76-81 | the list is no longer than the matches; record j has the video id, start and text of accepted match j; every link is built from its record's video id and start; the list is separated per video |
| `Text.IntToString` | Backend/index.py:80 | `str(i)` / `toString()` on an integer: at least one character, a leading minus exactly for negative values; all other characters are decimal digits |
| `Text.PadStart` | Frontend/youtube-bot/src/SearchBot.jsx:26 | `padStart(width, fill)`: the result has length max(length, width), ends with the input, and every character before it is the fill |
| `Text.ParseIntToString` | Backend/index.py:80 | the decimal rendering of an integer reads back to that integer |
| `SearchBot.FormatTime` | Frontend/youtube-bot/src/SearchBot.jsx:26 | `formatTime`: the label has at least four characters and starts with a minus sign exactly when s is negative |
| `SearchBot.JsRemainder` | Frontend/youtube-bot/src/SearchBot.jsx:26 | JavaScript's `%` takes the dividend's sign: 0..59 for a non-negative input, -59..0 for a negative one |
| `SearchBot.SecondsField` | Frontend/youtube-bot/src/SearchBot.jsx:26 | padding a value in 0..59 gives exactly two digits with that value |
| `SearchBot.FormatTimeShape` | Frontend/youtube-bot/src/SearchBot.jsx:26 | for s >= 0, `Math.floor` and JavaScript's `%` agree with whole minutes and remaining seconds, so both fields are plain decimals |
| `SearchBot.LabelFields` | Frontend/youtube-bot/src/SearchBot.jsx:26 | the label built from minutes q and seconds r in 0..59 is q in decimal, a colon and two digits worth r |
| `SearchBot.FormatTimeFields` | Frontend/youtube-bot/src/SearchBot.jsx:26 | for s >= 0, the label is `s / 60` in decimal, a colon, and exactly two digits worth `s % 60` |
| `SearchBot.ClockRoundTrip` | Frontend/youtube-bot/src/SearchBot.jsx:26 | a label built from minutes q and seconds r in 0..59 reads back to q * 60 + r |
| `SearchBot.FormatTimeRoundTrip` | Frontend/youtube-bot/src/SearchBot.jsx:26 | for s >= 0, reading the label back gives s |
| `SearchBot.Stamped` | Frontend/youtube-bot/src/SearchBot.jsx:17 | the new message has every field of the given one, except that `id` is the clock value in decimal and `timestamp` is the date |
| `SearchBot.Added` | Frontend/youtube-bot/src/SearchBot.jsx:18 | the list grows by one, the old messages are kept unchanged as its prefix, and the stamped message is last |
| `SearchBot.Updated` | Frontend/youtube-bot/src/SearchBot.jsx:23 | length and order are kept; messages with another id are unchanged; each message with the id takes every field of the update and keeps its other fields |
| `SearchBot.HasId` | Frontend/youtube-bot/src/SearchBot.jsx:23 | definition of `m.id === id`: the message has an `id` field holding that string |
| `SearchBot.UpdatedUnknownId` | Frontend/youtube-bot/src/SearchBot.jsx:23 | an update for an id that no message carries changes nothing |
| `SearchBot.UpdateReachesAdded` | Frontend/youtube-bot/src/SearchBot.jsx:16-24 | updating by the id `addMessage` returned rewrites the added message and leaves earlier messages with other ids alone |
| `SearchBot.SameClockCollision` | Frontend/youtube-bot/src/SearchBot.jsx:16-32 | ids are not unique: if both `addMessage` calls of `handleSearch` read the same clock value, the update for the bot's reply rewrites the user's message too |
| `SearchBot.Chat.constructor` | Frontend/youtube-bot/src/SearchBot.jsx:5-13 | the initial state is the bot's greeting with id '1' |
| `SearchBot.Chat.AddMessage` | Frontend/youtube-bot/src/SearchBot.jsx:16-20 | `messages` becomes the old list plus the stamped message; the returned id is that message's id |
| `SearchBot.Chat.UpdateMessage` | Frontend/youtube-bot/src/SearchBot.jsx:22-24 | `messages` becomes the merged list given by `Updated` |

## Left out

- The embedding call `get_embeddings` (Backend/index.py:28-33) is left out. It calls a remote API.
- The Chroma client, `collection.add` and `collection.query` (Backend/index.py:19-21, 51-56, 64-67) are left out. They are an external vector store; the query's answer is an input to `Search.Search`.
- Transcript download (Backend/index.py:38) and the startup hook (Backend/index.py:86-88) are left out. They are network I/O and framework wiring; the transcript is an input to `Chunks.IngestVideo`.
- `int(entry["start"])` (Backend/index.py:45) is left out. It truncates a float; start times enter the model as integers.
- FastAPI routing, query-parameter parsing and `.env` loading (Backend/index.py:9-24, 60-61) are left out.
- The ids of the matches (`id_`, Backend/index.py:71) are unused by the code. In the model they only bound how many pairs `zip` yields.
- `seen` is local to the loop, so `Search.Search` states its contents as a loop invariant, not in a postcondition.
- `handleSearch`, its `fetch` calls and JSON decoding (SearchBot.jsx:28-59) are left out. They are asynchronous network I/O.
- `Date.now()` and `new Date()` (SearchBot.jsx:11, 17) are not modelled. Their values are parameters, and a `Date` is its millisecond value.
- JSX rendering and `handleKey` (SearchBot.jsx:62-147) are left out. They are UI.
- `SearchBot.FormatTimeFields`: the field properties are proved only for s >= 0. The model keeps JavaScript's behaviour for negative input: -5 renders as `-1:-5`.
- `Text.IntToString`: JavaScript writes integers of 10^21 and above in exponent notation. This is not modelled, because clock values and video offsets are far below that.
- `SearchBot.JsRemainder`: the contract gives only the range of the remainder, not that it differs from the dividend by a multiple of the divisor.
- `Chunks.Metadata` has the three fields as typed components. A match whose metadata lacks `video_id`, `start` or `text` makes `search` raise `KeyError` (Backend/index.py:72-73, 79); the model cannot express that case.
- `SearchBot.FormatTime`: `Math.floor(s / 60)` divides floating-point numbers. Beyond 2^53 seconds it can differ from the integer division of the model. Video offsets are far below that.
