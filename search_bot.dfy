/** The state helpers of the `SearchBot` chat component
    (Frontend/youtube-bot/src/SearchBot.jsx): the clock label shown under a
    video result, and the two updaters that replace the `messages` list.
    A message is a JavaScript object; it is modelled as a map from field
    names to values, so that the object spread `{ ...m, ...updates }` is the
    map union `m + updates`, in which the right operand wins. The clock
    (`Date.now()`, `new Date()`) is read by the caller and passed in. */
module SearchBot {
  import opened Text

  /** The values a message field can hold. */
  datatype Value =
    | Str(s: string)
    | Bool(b: bool)
    | Num(n: int)
    | Date(millis: int)
    | Arr(items: seq<Value>)
    | Obj(fields: map<string, Value>)

  type Message = map<string, Value>

  /** JavaScript's `a % b`: the remainder takes the sign of `a`. */
  function JsRemainder(a: int, b: int): (r: int)
    requires b > 0
    ensures a >= 0 ==> 0 <= r < b
    ensures a < 0 ==> -b < r <= 0
  {
    if a >= 0 then a % b else -((-a) % b)
  }

  /** `formatTime`: whole minutes, a colon, and the seconds padded to two
      characters with '0'. `Math.floor(s / 60)` is `s / 60` here, since
      Dafny's division rounds down when the divisor is positive. */
  function FormatTime(s: int): (t: string)
    ensures |t| >= 4
    ensures (t[0] == '-') == (s < 0)
  {
    IntToString(s / 60) + ":" + PadStart(IntToString(JsRemainder(s, 60)), 2, '0')
  }

  /** Reads `m:ss` back into seconds: the seconds are the last two
      characters, a colon comes before them, and the minutes before that. */
  function ParseClock(t: string): Option<int> {
    if |t| < 3 || t[|t| - 3] != ':' then None
    else ParseFields(t[..|t| - 3], t[|t| - 2..])
  }

  /** The value of the fields of a label: minutes as an integer, seconds as
      exactly two digits. */
  function ParseFields(mins: string, secs: string): Option<int> {
    if |secs| != 2 || !AllDigits(secs) then None
    else
      match ParseInt(mins)
      case None => None
      case Some(m) => Some(m * 60 + ParseNat(secs))
  }

  /** The seconds field of a clock label: two digits for 0..59. */
  lemma {:induction false} SecondsField(r: nat)
    requires r < 60
    ensures var f := PadStart(NatToString(r), 2, '0');
      |f| == 2 && AllDigits(f) && ParseNat(f) == r
  {
    var d := NatToString(r);
    var f := PadStart(d, 2, '0');
    ParseNatToString(r);
    if r < 10 {
      assert f == ['0'] + d;
      assert f[..1] == ['0'];
      assert ParseNat(f[..1]) == 0 by {
        assert f[..1][..0] == [];
      }
    } else {
      assert |d| == 2 by {
        assert d == NatToString(r / 10) + [DigitChar(r % 10)];
      }
      assert f == d;
    }
  }

  /** For a non-negative number of seconds both fields are plain decimals. */
  lemma FormatTimeShape(s: int)
    requires s >= 0
    ensures FormatTime(s) == NatToString(s / 60) + [':'] + PadStart(NatToString(s % 60), 2, '0')
  {
    assert JsRemainder(s, 60) == s % 60;
  }

  /** Proof step, not a property of the component: where the fields of a
      label `m:ss` with two characters after the colon sit. */
  lemma ClockParts(m: string, f: string)
    requires |f| == 2
    ensures var t := m + [':'] + f;
      |t| == |m| + 3 && t[|t| - 3] == ':' && t[..|t| - 3] == m && t[|t| - 2..] == f
  {
  }

  /** `t` is a clock label `<minutes>:<ss>`: the minutes `q` in decimal, a
      colon, and exactly two digits worth `r`. */
  predicate IsLabelOf(t: string, q: nat, r: nat) {
    |t| >= 4 && t[|t| - 3] == ':' && t[..|t| - 3] == NatToString(q) &&
    AllDigits(t[|t| - 2..]) && ParseNat(t[|t| - 2..]) == r
  }

  /** The label built from whole minutes `q` and seconds `r` in 0..59 has
      those two fields. */
  lemma LabelFields(q: nat, r: nat)
    requires r < 60
    ensures IsLabelOf(NatToString(q) + [':'] + PadStart(NatToString(r), 2, '0'), q, r)
  {
    SecondsField(r);
    ClockParts(NatToString(q), PadStart(NatToString(r), 2, '0'));
  }

  /** For a non-negative number of seconds the label is `<minutes>:<ss>`: the
      minutes are `s / 60` in decimal and the seconds field is exactly two
      digits worth `s % 60`. */
  lemma FormatTimeFields(s: int)
    requires s >= 0
    ensures IsLabelOf(FormatTime(s), s / 60, s % 60)
  {
    FormatTimeShape(s);
    LabelFields(s / 60, s % 60);
  }

  /** A label is split at the colon before its two-character seconds field. */
  lemma ParseClockSplit(m: string, f: string)
    requires |f| == 2
    ensures ParseClock(m + [':'] + f) == ParseFields(m, f)
  {
    ClockParts(m, f);
  }

  /** Fields made of decimal digits give minutes * 60 + seconds. */
  lemma ParseFieldsDigits(m: string, f: string)
    requires |m| >= 1 && AllDigits(m) && |f| == 2 && AllDigits(f)
    ensures ParseFields(m, f) == Some(ParseNat(m) * 60 + ParseNat(f))
  {
    assert ParseInt(m) == Some(ParseNat(m)) by {
      assert m[0] != '-';
    }
  }

  /** A label whose minutes read as `q` and whose seconds read as `r` reads
      back to `q * 60 + r`. */
  lemma ParseClockValue(m: string, f: string, q: nat, r: nat)
    requires |m| >= 1 && AllDigits(m) && ParseNat(m) == q
    requires |f| == 2 && AllDigits(f) && ParseNat(f) == r
    ensures ParseClock(m + [':'] + f) == Some(q * 60 + r)
  {
    ParseClockSplit(m, f);
    ParseFieldsDigits(m, f);
  }

  /** A label built from whole minutes `q` and seconds `r` in 0..59 reads
      back to `q * 60 + r`. */
  lemma ClockRoundTrip(q: nat, r: nat, s: int)
    requires r < 60 && s == q * 60 + r
    ensures ParseClock(NatToString(q) + [':'] + PadStart(NatToString(r), 2, '0')) == Some(s)
  {
    SecondsField(r);
    ParseNatToString(q);
    ParseClockValue(NatToString(q), PadStart(NatToString(r), 2, '0'), q, r);
  }

  /** Proof step, not a property of the component: whole minutes and
      remaining seconds make up the number of seconds. */
  lemma MinutesSeconds(s: int)
    requires s >= 0
    ensures s / 60 >= 0 && 0 <= s % 60 < 60 && s == (s / 60) * 60 + s % 60
  {
  }

  /** The fields of `s` seconds, read back, give `s`. */
  lemma ClockOfSeconds(s: int)
    requires s >= 0
    ensures ParseClock(NatToString(s / 60) + [':'] + PadStart(NatToString(s % 60), 2, '0')) == Some(s)
  {
    MinutesSeconds(s);
    ClockRoundTrip(s / 60, s % 60, s);
  }

  /** The label of a non-negative number of seconds reads back to it. */
  lemma FormatTimeRoundTrip(s: int)
    requires s >= 0
    ensures ParseClock(FormatTime(s)) == Some(s)
  {
    FormatTimeShape(s);
    ClockOfSeconds(s);
  }

  /** `{ ...msg, id: Date.now().toString(), timestamp: new Date() }` */
  function Stamped(msg: Message, now: int, date: int): (r: Message)
    ensures r.Keys == msg.Keys + {"id", "timestamp"}
    ensures r["id"] == Str(IntToString(now)) && r["timestamp"] == Date(date)
    ensures forall k :: k in msg && k != "id" && k != "timestamp" ==> r[k] == msg[k]
  {
    msg["id" := Str(IntToString(now))]["timestamp" := Date(date)]
  }

  /** The updater of `addMessage`: `[...prev, newMsg]`. */
  function Added(prev: seq<Message>, msg: Message, now: int, date: int): (r: seq<Message>)
    ensures |r| == |prev| + 1
    ensures r[..|prev|] == prev
    ensures r[|prev|] == Stamped(msg, now, date)
  {
    prev + [Stamped(msg, now, date)]
  }

  /** `m.id === id` */
  predicate HasId(m: Message, id: string) {
    "id" in m && m["id"] == Str(id)
  }

  /** The updater of `updateMessage`: every message whose id is `id` takes the
      fields of `updates` and keeps its others; every other message is left
      alone. Nothing assumes that at most one message has that id. */
  function Updated(prev: seq<Message>, id: string, updates: Message): (r: seq<Message>)
    ensures |r| == |prev|
    ensures forall i :: 0 <= i < |prev| && !HasId(prev[i], id) ==> r[i] == prev[i]
    ensures forall i :: 0 <= i < |prev| && HasId(prev[i], id) ==>
      r[i].Keys == prev[i].Keys + updates.Keys &&
      (forall k :: k in updates ==> r[i][k] == updates[k]) &&
      (forall k :: k in prev[i] && k !in updates ==> r[i][k] == prev[i][k])
  {
    seq(|prev|, i requires 0 <= i < |prev| => if HasId(prev[i], id) then prev[i] + updates else prev[i])
  }

  /** An update addressed to an id no message carries changes nothing. */
  lemma UpdatedUnknownId(prev: seq<Message>, id: string, updates: Message)
    requires forall i :: 0 <= i < |prev| ==> !HasId(prev[i], id)
    ensures Updated(prev, id, updates) == prev
  {
  }

  /** The id `addMessage` returns addresses the message it added: updating by
      it rewrites that message and keeps every earlier message whose id differs. */
  lemma UpdateReachesAdded(prev: seq<Message>, msg: Message, now: int, date: int, updates: Message)
    ensures var r := Updated(Added(prev, msg, now, date), IntToString(now), updates);
      |r| == |prev| + 1 &&
      r[|prev|] == Stamped(msg, now, date) + updates &&
      forall i :: 0 <= i < |prev| && !HasId(prev[i], IntToString(now)) ==> r[i] == prev[i]
  {
    var added := Added(prev, msg, now, date);
    assert HasId(added[|prev|], IntToString(now));
    assert forall i :: 0 <= i < |prev| ==> added[i] == prev[i];
  }

  /** Ids come from the millisecond clock and need not be unique: when the two
      `addMessage` calls of `handleSearch` read the same clock value, the
      update meant for the bot's reply also rewrites the user's message. */
  lemma SameClockCollision(prev: seq<Message>, user: Message, bot: Message, now: int,
                           d1: int, d2: int, updates: Message)
    ensures var msgs := Added(Added(prev, user, now, d1), bot, now, d2);
      var r := Updated(msgs, IntToString(now), updates);
      r[|prev|] == Stamped(user, now, d1) + updates &&
      r[|prev| + 1] == Stamped(bot, now, d2) + updates
  {
    var once := Added(prev, user, now, d1);
    var msgs := Added(once, bot, now, d2);
    assert msgs[|prev|] == once[|prev|];
    assert HasId(msgs[|prev|], IntToString(now));
    assert HasId(msgs[|prev| + 1], IntToString(now));
  }

  const GREETING: string :=
    "Hi! I'm Amplon Search Bot. I can help you find info from YouTube videos and PDFs. What would you like to search for?"

  /** The `messages` state of the component, replaced by its two updaters. */
  class Chat {
    var messages: seq<Message>

    /** The initial state: the bot's greeting under id '1'. */
    constructor (date: int)
      ensures messages == [map["id" := Str("1"), "type" := Str("bot"), "content" := Str(GREETING),
                               "timestamp" := Date(date)]]
    {
      messages := [map["id" := Str("1"), "type" := Str("bot"), "content" := Str(GREETING),
                       "timestamp" := Date(date)]];
    }

    /** `addMessage`: appends the stamped message and returns its id. */
    method AddMessage(msg: Message, now: int, date: int) returns (id: string)
      modifies this
      ensures messages == Added(old(messages), msg, now, date)
      ensures id == IntToString(now) && HasId(messages[|messages| - 1], id)
    {
      var newMsg := Stamped(msg, now, date);
      messages := messages + [newMsg];
      id := IntToString(now);
    }

    /** `updateMessage`: merges `updates` into every message with that id. */
    method UpdateMessage(id: string, updates: Message)
      modifies this
      ensures messages == Updated(old(messages), id, updates)
    {
      messages := Updated(messages, id, updates);
    }
  }
}
