/**
 * Analytics: the event record, the device-storage buffer that keeps the most recent events,
 * and the client that hands each event to every sink while swallowing a sink's failure.
 * Sinks run one after another here; the effects of one sink never depend on another's.
 */
module Analytics {
  import opened Wrappers
  import opened Seqs
  import opened Json
  import opened Storage

  const ANALYTICS_STORAGE_KEY: string := "elliebellie.analytics.v1"
  const MAX_EVENTS: nat := 200

  datatype EventName =
    | FeedLoaded
    | HeadlineTap
    | BookmarkAdded
    | BookmarkRemoved
    | SavedOpened
    | FeedLoadFailed

  /** The wire name of an event. */
  function NameText(n: EventName): string {
    match n
    case FeedLoaded => "feed_loaded"
    case HeadlineTap => "headline_tap"
    case BookmarkAdded => "bookmark_added"
    case BookmarkRemoved => "bookmark_removed"
    case SavedOpened => "saved_opened"
    case FeedLoadFailed => "feed_load_failed"
  }

  /** Distinct events have distinct wire names. */
  lemma NameTextInjective(a: EventName, b: EventName)
    ensures NameText(a) == NameText(b) <==> a == b
  {
    if a != b {
      match a
      case FeedLoaded => assert NameText(a)[0] == 'f' && NameText(a)[5] == 'l';
      case HeadlineTap => assert NameText(a)[0] == 'h';
      case BookmarkAdded => assert NameText(a)[0] == 'b' && NameText(a)[9] == 'a';
      case BookmarkRemoved => assert NameText(a)[0] == 'b' && NameText(a)[9] == 'r';
      case SavedOpened => assert NameText(a)[0] == 's';
      case FeedLoadFailed => assert NameText(a)[0] == 'f' && NameText(a)[5] == 'l' && NameText(a)[7] == 'a';
    }
  }

  datatype PayloadValue = PString(s: string) | PNumber(n: real) | PBool(b: bool) | PNull

  datatype AnalyticsEvent = AnalyticsEvent(name: EventName, timestamp: string, payload: map<string, PayloadValue>)

  function PayloadJson(v: PayloadValue): Json {
    match v
    case PString(s) => JString(s)
    case PNumber(n) => JNumber(n)
    case PBool(b) => JBool(b)
    case PNull => JNull
  }

  /** The JSON object `JSON.stringify` is given for one event. */
  function EventJson(ev: AnalyticsEvent): (j: Json)
    ensures j.JObject? && j.fields.Keys == {"name", "timestamp", "payload"}
    ensures j.fields["name"] == JString(NameText(ev.name)) && j.fields["timestamp"] == JString(ev.timestamp)
    ensures j.fields["payload"].JObject? && j.fields["payload"].fields.Keys == ev.payload.Keys
  {
    JObject(map[
      "name" := JString(NameText(ev.name)),
      "timestamp" := JString(ev.timestamp),
      "payload" := JObject(map k | k in ev.payload :: PayloadJson(ev.payload[k]))])
  }

  /** What the buffer keeps of a parsed entry: a truthy value whose `typeof` is "object". */
  predicate EventLike(j: Json) {
    Truthy(j) && TypeofObject(j)
  }

  /** The kept entries are exactly the arrays and objects. */
  lemma EventLikeIff(j: Json)
    ensures EventLike(j) <==> j.JArray? || j.JObject?
  {
  }

  /**
   * `readEvents`: nothing when nothing or "" is stored, when the text does not parse or when it
   * parses to something other than an array; otherwise the array's object entries, in order.
   */
  function ReadEvents(store: Store, codec: Codec): (r: seq<Json>)
    ensures ANALYTICS_STORAGE_KEY !in store ==> r == []
    ensures ANALYTICS_STORAGE_KEY in store && store[ANALYTICS_STORAGE_KEY] == [] ==> r == []
    ensures ANALYTICS_STORAGE_KEY in store && codec.parse(store[ANALYTICS_STORAGE_KEY]).None? ==> r == []
    ensures ANALYTICS_STORAGE_KEY in store && codec.parse(store[ANALYTICS_STORAGE_KEY]).Some? ==>
              !codec.parse(store[ANALYTICS_STORAGE_KEY]).value.JArray? ==> r == []
    ensures forall k :: 0 <= k < |r| ==> r[k].JArray? || r[k].JObject?
    ensures r != [] ==>
              && ANALYTICS_STORAGE_KEY in store && store[ANALYTICS_STORAGE_KEY] != []
              && codec.parse(store[ANALYTICS_STORAGE_KEY]).Some?
              && codec.parse(store[ANALYTICS_STORAGE_KEY]).value.JArray?
              && IsSubsequence(r, codec.parse(store[ANALYTICS_STORAGE_KEY]).value.items)
  {
    if ANALYTICS_STORAGE_KEY !in store || store[ANALYTICS_STORAGE_KEY] == [] then []
    else
      match codec.parse(store[ANALYTICS_STORAGE_KEY])
      case Some(JArray(items)) => Filter(items, EventLike)
      case _ => []
  }

  /** A stored array is read back as its object entries, and every object entry survives. */
  lemma ReadArray(store: Store, codec: Codec, items: seq<Json>)
    requires ANALYTICS_STORAGE_KEY in store && store[ANALYTICS_STORAGE_KEY] != []
    requires codec.parse(store[ANALYTICS_STORAGE_KEY]) == Some(JArray(items))
    ensures ReadEvents(store, codec) == Filter(items, EventLike)
    ensures forall x :: x in items && (x.JArray? || x.JObject?) ==> x in ReadEvents(store, codec)
  {
    var r := Filter(items, EventLike);
    assert ReadEvents(store, codec) == r;
    forall x | x in items && (x.JArray? || x.JObject?) ensures x in r {
      assert multiset(r)[x] == multiset(items)[x] by {
        assert EventLike(x);
      }
    }
  }

  /** The buffer after `e` is pushed and all but the last `MAX_EVENTS` entries are dropped. */
  function Appended(events: seq<Json>, e: Json): (r: seq<Json>)
    ensures |r| == if |events| < MAX_EVENTS then |events| + 1 else MAX_EVENTS
    ensures r != [] && r[|r| - 1] == e
    ensures |events| < MAX_EVENTS ==> r == events + [e]
    ensures |events| >= MAX_EVENTS ==> r == events[|events| + 1 - MAX_EVENTS..] + [e]
  {
    var all := events + [e];
    var r := SliceLast(all, MAX_EVENTS);
    assert r == all[|all| - |r|..];
    assert |events| >= MAX_EVENTS ==> all[|all| - |r|..] == events[|events| + 1 - MAX_EVENTS..] + [e];
    r
  }

  /** The buffer after tracking each of `es` in turn. */
  function AppendAll(events: seq<Json>, es: seq<Json>): seq<Json> {
    PushAll(events, es, MAX_EVENTS)
  }

  /** Tracking `e` and then `rest` is tracking `e` on the buffer `Appended` leaves. */
  lemma AppendAllStep(events: seq<Json>, e: Json, rest: seq<Json>)
    ensures AppendAll(events, [e] + rest) == AppendAll(Appended(events, e), rest)
  {
    assert ([e] + rest)[1..] == rest;
  }

  /**
   * However many events are tracked one at a time, the buffer ends up holding the last
   * `MAX_EVENTS` of everything tracked.
   */
  lemma AppendAllKeepsLast(events: seq<Json>, es: seq<Json>)
    requires es != []
    ensures AppendAll(events, es) == SliceLast(events + es, MAX_EVENTS)
  {
    PushAllKeepsLast(events, es, MAX_EVENTS);
  }

  /** `AsyncStorageBufferSink.track`: the buffer read back, with `ev` pushed, trimmed and stored. */
  function BufferTrack(store: Store, ev: AnalyticsEvent, codec: Codec): (s: Store)
    ensures s.Keys == store.Keys + {ANALYTICS_STORAGE_KEY}
    ensures s[ANALYTICS_STORAGE_KEY] == codec.stringify(JArray(Appended(ReadEvents(store, codec), EventJson(ev))))
    ensures forall k :: k in store && k != ANALYTICS_STORAGE_KEY ==> s[k] == store[k]
  {
    store[ANALYTICS_STORAGE_KEY := codec.stringify(JArray(Appended(ReadEvents(store, codec), EventJson(ev))))]
  }

  /**
   * Reading the buffer after tracking gives the previous buffer with the event pushed and the
   * oldest entries beyond `MAX_EVENTS` dropped, when the codec reads back what it wrote.
   */
  lemma {:induction false} TrackThenRead(store: Store, ev: AnalyticsEvent, codec: Codec)
    requires RoundTrips(codec, JArray(Appended(ReadEvents(store, codec), EventJson(ev))))
    ensures ReadEvents(BufferTrack(store, ev, codec), codec) == Appended(ReadEvents(store, codec), EventJson(ev))
  {
    var events := ReadEvents(store, codec);
    var buffer := Appended(events, EventJson(ev));
    var written := BufferTrack(store, ev, codec);
    assert written[ANALYTICS_STORAGE_KEY] == codec.stringify(JArray(buffer));
    assert codec.parse(written[ANALYTICS_STORAGE_KEY]) == Some(JArray(buffer));
    ReadArray(written, codec, buffer);
    AppendedEventLike(events, EventJson(ev));
    FilterAllKept(buffer, EventLike);
  }

  /** Pushing an object onto a buffer of objects and arrays leaves only entries the reader keeps. */
  lemma AppendedEventLike(events: seq<Json>, e: Json)
    requires forall k :: 0 <= k < |events| ==> events[k].JArray? || events[k].JObject?
    requires e.JObject?
    ensures forall k :: 0 <= k < |Appended(events, e)| ==> EventLike(Appended(events, e)[k])
  {
    forall k | 0 <= k < |events| ensures EventLike(events[k]) {
      EventLikeIff(events[k]);
    }
    SliceLastSnocKeeps(events, e, MAX_EVENTS, EventLike);
  }

  /** After tracking, the buffer holds between 1 and `MAX_EVENTS` entries and ends with the event. */
  lemma TrackBounded(store: Store, ev: AnalyticsEvent, codec: Codec)
    requires RoundTrips(codec, JArray(Appended(ReadEvents(store, codec), EventJson(ev))))
    ensures var r := ReadEvents(BufferTrack(store, ev, codec), codec);
      1 <= |r| <= MAX_EVENTS && r[|r| - 1] == EventJson(ev)
  {
    TrackThenRead(store, ev, codec);
  }

  /** A stored buffer that does not parse is replaced by one holding just the new event. */
  lemma TrackOverUnreadable(store: Store, ev: AnalyticsEvent, codec: Codec)
    requires ANALYTICS_STORAGE_KEY in store && codec.parse(store[ANALYTICS_STORAGE_KEY]).None?
    requires RoundTrips(codec, JArray([EventJson(ev)]))
    ensures ReadEvents(BufferTrack(store, ev, codec), codec) == [EventJson(ev)]
  {
    assert ReadEvents(store, codec) == [];
    assert Appended([], EventJson(ev)) == [EventJson(ev)];
    TrackThenRead(store, ev, codec);
  }

  /** An analytics destination. `Custom` stands for any other sink, identified by a tag. */
  datatype Sink = ConsoleSink | BufferSink | Custom(tag: nat)

  /** The observable effects of tracking: device storage, console lines, events handed to custom sinks. */
  datatype Effects = Effects(store: Store, console: seq<string>, delivered: seq<(nat, AnalyticsEvent)>)

  /** The line `ConsoleAnalyticsSink` logs for an event; the payload it logs alongside is not modelled. */
  function ConsoleLine(ev: AnalyticsEvent): string {
    "[analytics] " + NameText(ev.name)
  }

  /** The console line names the event and nothing else: two lines agree exactly when the names do. */
  lemma ConsoleLineNamesEvent(e1: AnalyticsEvent, e2: AnalyticsEvent)
    ensures ConsoleLine(e1) == ConsoleLine(e2) <==> e1.name == e2.name
  {
    if ConsoleLine(e1) == ConsoleLine(e2) {
      var p := "[analytics] ";
      assert ConsoleLine(e1)[|p|..] == NameText(e1.name);
      assert ConsoleLine(e2)[|p|..] == NameText(e2.name);
      NameTextInjective(e1.name, e2.name);
    }
  }

  /** One sink's `track`: each kind of sink touches its own channel and no other. */
  function SinkTrack(sink: Sink, ev: AnalyticsEvent, fx: Effects, codec: Codec): (r: Effects)
    ensures !sink.ConsoleSink? ==> r.console == fx.console
    ensures !sink.BufferSink? ==> r.store == fx.store
    ensures !sink.Custom? ==> r.delivered == fx.delivered
  {
    match sink
    case ConsoleSink => fx.(console := fx.console + [ConsoleLine(ev)])
    case BufferSink => fx.(store := BufferTrack(fx.store, ev, codec))
    case Custom(tag) => fx.(delivered := fx.delivered + [(tag, ev)])
  }

  /** Only the analytics key of the store may change. */
  ghost predicate OtherKeysKept(before: Store, after: Store) {
    && (forall k :: k != ANALYTICS_STORAGE_KEY ==> (k in after <==> k in before))
    && (forall k :: k in before && k != ANALYTICS_STORAGE_KEY ==> after[k] == before[k])
  }

  /**
   * The sinks in turn, each given the same event; sink `k` throws when `fails(k)`, and a sink
   * that throws has no effect and does not stop the others. Nothing is ever lost from the
   * console or from what custom sinks received, everything added concerns `ev`, and the
   * store changes at most under the analytics key.
   */
  function RunSinks(sinks: seq<Sink>, ev: AnalyticsEvent, fx: Effects, fails: nat -> bool, codec: Codec): (r: Effects)
    ensures |fx.console| <= |r.console| && r.console[..|fx.console|] == fx.console
    ensures forall k :: |fx.console| <= k < |r.console| ==> r.console[k] == ConsoleLine(ev)
    ensures |fx.delivered| <= |r.delivered| && r.delivered[..|fx.delivered|] == fx.delivered
    ensures forall k :: |fx.delivered| <= k < |r.delivered| ==> r.delivered[k].1 == ev
    ensures OtherKeysKept(fx.store, r.store)
    decreases |sinks|
  {
    if sinks == [] then fx
    else
      var before := RunSinks(sinks[..|sinks| - 1], ev, fx, fails, codec);
      if fails(|sinks| - 1) then before else SinkTrack(sinks[|sinks| - 1], ev, before, codec)
  }

  /** The sinks that do not throw, in order. */
  function Working(sinks: seq<Sink>, fails: nat -> bool): seq<Sink>
    decreases |sinks|
  {
    if sinks == [] then []
    else
      var rest := Working(sinks[..|sinks| - 1], fails);
      if fails(|sinks| - 1) then rest else rest + [sinks[|sinks| - 1]]
  }

  function NoFailures(): nat -> bool {
    k => false
  }

  /** A sink that throws is as if it were not there: the others run exactly as they would alone. */
  lemma {:induction false} FailureIsAbsence(sinks: seq<Sink>, ev: AnalyticsEvent, fx: Effects, fails: nat -> bool, codec: Codec)
    ensures RunSinks(sinks, ev, fx, fails, codec) == RunSinks(Working(sinks, fails), ev, fx, NoFailures(), codec)
    decreases |sinks|
  {
    if sinks != [] {
      var init := sinks[..|sinks| - 1];
      var w := Working(init, fails);
      FailureIsAbsence(init, ev, fx, fails, codec);
      if !fails(|sinks| - 1) {
        var w1 := w + [sinks[|sinks| - 1]];
        assert w1[..|w1| - 1] == w;
        assert !NoFailures()(|w1| - 1);
      }
    }
  }

  /** Every custom sink that does not throw receives the event. */
  lemma {:induction false} WorkingSinksReceive(sinks: seq<Sink>, ev: AnalyticsEvent, fx: Effects, fails: nat -> bool, codec: Codec)
    ensures forall k :: 0 <= k < |sinks| && !fails(k) && sinks[k].Custom? ==>
              (sinks[k].tag, ev) in RunSinks(sinks, ev, fx, fails, codec).delivered
    decreases |sinks|
  {
    if sinks != [] {
      var init := sinks[..|sinks| - 1];
      var before := RunSinks(init, ev, fx, fails, codec);
      var r := RunSinks(sinks, ev, fx, fails, codec);
      WorkingSinksReceive(init, ev, fx, fails, codec);
      assert |before.delivered| <= |r.delivered| && r.delivered[..|before.delivered|] == before.delivered by {
        if !fails(|sinks| - 1) && sinks[|sinks| - 1].Custom? {
          assert r.delivered == before.delivered + [(sinks[|sinks| - 1].tag, ev)];
        }
      }
      forall k | 0 <= k < |sinks| && !fails(k) && sinks[k].Custom?
        ensures (sinks[k].tag, ev) in r.delivered
      {
        if k < |sinks| - 1 {
          assert init[k] == sinks[k];
          var j :| 0 <= j < |before.delivered| && before.delivered[j] == (sinks[k].tag, ev);
          assert r.delivered[j] == before.delivered[j];
        } else {
          assert r.delivered == before.delivered + [(sinks[k].tag, ev)];
        }
      }
    }
  }

  /** The client: the sink list events go to. */
  datatype Client = Client(sinks: seq<Sink>)

  /** `setSinks`: the new list replaces the old one entirely. */
  function SetSinks(client: Client, next: seq<Sink>): (r: Client)
    ensures r.sinks == next
  {
    client.(sinks := next)
  }

  /** `AnalyticsClient.track`: one event, stamped with `now`, handed to every sink. */
  function ClientTrack(client: Client, name: EventName, payload: map<string, PayloadValue>, now: string,
                       fx: Effects, fails: nat -> bool, codec: Codec): (r: Effects)
    ensures forall k :: |fx.delivered| <= k < |r.delivered| ==> r.delivered[k].1 == AnalyticsEvent(name, now, payload)
    ensures forall k :: |fx.console| <= k < |r.console| ==> r.console[k] == "[analytics] " + NameText(name)
    ensures |fx.console| <= |r.console| && r.console[..|fx.console|] == fx.console
    ensures |fx.delivered| <= |r.delivered| && r.delivered[..|fx.delivered|] == fx.delivered
    ensures OtherKeysKept(fx.store, r.store)
  {
    RunSinks(client.sinks, AnalyticsEvent(name, now, payload), fx, fails, codec)
  }

  /** After `setSinks`, tracking depends only on the new list, not on what the client had before. */
  lemma SetSinksForgetsOld(c1: Client, c2: Client, next: seq<Sink>, name: EventName, payload: map<string, PayloadValue>,
                           now: string, fx: Effects, fails: nat -> bool, codec: Codec)
    ensures ClientTrack(SetSinks(c1, next), name, payload, now, fx, fails, codec)
         == ClientTrack(SetSinks(c2, next), name, payload, now, fx, fails, codec)
    ensures ClientTrack(SetSinks(c1, next), name, payload, now, fx, fails, codec)
         == ClientTrack(Client(next), name, payload, now, fx, fails, codec)
  {
  }

  /** A client with no sinks changes nothing. */
  lemma NoSinksNoEffect(name: EventName, payload: map<string, PayloadValue>, now: string, fx: Effects,
                        fails: nat -> bool, codec: Codec)
    ensures ClientTrack(Client([]), name, payload, now, fx, fails, codec) == fx
  {
  }

  /** The app's client: the console sink, then the storage buffer. */
  const DEFAULT_CLIENT: Client := Client([ConsoleSink, BufferSink])

  /** `trackEvent`: tracking through the app's client. */
  function TrackEvent(name: EventName, payload: map<string, PayloadValue>, now: string,
                      fx: Effects, fails: nat -> bool, codec: Codec): (r: Effects)
    ensures OtherKeysKept(fx.store, r.store)
    ensures forall k :: |fx.console| <= k < |r.console| ==> r.console[k] == "[analytics] " + NameText(name)
  {
    ClientTrack(DEFAULT_CLIENT, name, payload, now, fx, fails, codec)
  }

  /**
   * Through the app's client, a working console logs one line and a working buffer stores the
   * event, each whether or not the other throws; nothing reaches a custom sink.
   */
  lemma TrackEventEffects(name: EventName, payload: map<string, PayloadValue>, now: string,
                          fx: Effects, fails: nat -> bool, codec: Codec)
    ensures var ev := AnalyticsEvent(name, now, payload);
            var r := TrackEvent(name, payload, now, fx, fails, codec);
            && r.console == (if fails(0) then fx.console else fx.console + ["[analytics] " + NameText(name)])
            && r.store == (if fails(1) then fx.store else BufferTrack(fx.store, ev, codec))
            && r.delivered == fx.delivered
  {
    var ev := AnalyticsEvent(name, now, payload);
    var sinks := DEFAULT_CLIENT.sinks;
    assert sinks[..1] == [ConsoleSink];
    assert sinks[..1][..0] == [];
    var none := RunSinks([], ev, fx, fails, codec);
    var first := RunSinks([ConsoleSink], ev, fx, fails, codec);
    assert first == if fails(0) then none else SinkTrack(ConsoleSink, ev, none, codec);
    assert RunSinks(sinks, ev, fx, fails, codec) == if fails(1) then first else SinkTrack(BufferSink, ev, first, codec);
  }
}
