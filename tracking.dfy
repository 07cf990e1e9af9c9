/** The tracking endpoint (`track_click`) and the JSON statistics
    (`api_stats`): unique-visitor recording over the click log, the
    redirect it answers with, and the reported total. */
module Tracking {
  import opened Wrappers
  import opened ClientIp
  import opened Store

  const TargetUrl := "https://developer.huaweicloud.com/intl/en-us/activity/c64bd713260a42e7872e4138a2aef2db"
  const UserAgentHeader := "User-Agent"
  const UnknownAgent := "Unknown"

  /** The HTTP answer of an endpoint: a redirect, or the server error the
      web server sends when the handler raises. */
  datatype Response = Redirect(status: nat, location: string) | ServerError

  /** A tracking request once its headers are read: the resolved client
      address, the time of the request and the user agent to store. */
  datatype Visit = Visit(ip: string, timestamp: string, userAgent: string)

  /** The `User-Agent` header, or "Unknown" when the header is absent (an
      empty header is kept: the source uses `get` with a default, not a
      truthiness test). */
  function UserAgentOf(headers: map<string, string>): (agent: string)
    ensures UserAgentHeader in headers ==> agent == headers[UserAgentHeader]
    ensures UserAgentHeader !in headers ==> agent == UnknownAgent
  {
    if UserAgentHeader in headers then headers[UserAgentHeader] else UnknownAgent
  }

  function VisitOf(headers: map<string, string>, peer: string, now: string): (v: Visit) {
    Visit(ResolveClientIp(headers, peer), now, UserAgentOf(headers))
  }

  /** The record a new visitor gets. */
  function NewClick(v: Visit): (c: Click) {
    Click(v.ip, v.timestamp, Some(v.userAgent))
  }

  /** `existing_ips`: the recorded addresses, in log order. An address is
      among them exactly when some record carries it. */
  function Ips(log: seq<Click>): (ips: seq<string>)
    ensures |ips| == |log|
    ensures forall ip :: ip in ips <==> exists i | 0 <= i < |log| :: log[i].ip == ip
  {
    var ips := seq(|log|, i requires 0 <= i < |log| => log[i].ip);
    assert forall i | 0 <= i < |log| :: ips[i] == log[i].ip;
    ips
  }

  /** The set of elements of a sequence. */
  ghost function Elements<T>(s: seq<T>): set<T> {
    set x | x in s
  }

  lemma ElementsSnoc<T>(s: seq<T>, x: T)
    ensures Elements(s + [x]) == Elements(s) + {x}
  {
  }

  /** No address is recorded twice. */
  predicate DistinctIps(log: seq<Click>) {
    forall i, j | 0 <= i < j < |log| :: log[i].ip != log[j].ip
  }

  /** The check-then-append of `track_click`: a visit from an address
      already in the log leaves the log as it is; any other visit is
      appended. Either way the log only grows, by at most one record, and
      afterwards holds the visit's address; `RecordReturning` and
      `RecordNew` say which case does what. */
  function Record(log: seq<Click>, v: Visit): (r: seq<Click>)
    ensures log <= r && |r| <= |log| + 1
    ensures v.ip in Ips(r)
  {
    if v.ip in Ips(log) then log else
      var r := log + [NewClick(v)];
      assert r[|log|].ip == v.ip;
      r
  }

  /** A returning visitor changes nothing. */
  lemma RecordReturning(log: seq<Click>, v: Visit)
    requires exists i | 0 <= i < |log| :: log[i].ip == v.ip
    ensures Record(log, v) == log
  {
  }

  /** A new visitor grows the log by exactly one record, keeps every
      earlier record as it was, and is stored with its address, the request
      time and its user agent. */
  lemma RecordNew(log: seq<Click>, v: Visit)
    requires forall i | 0 <= i < |log| :: log[i].ip != v.ip
    ensures |Record(log, v)| == |log| + 1
    ensures Record(log, v)[..|log|] == log
    ensures Record(log, v)[|log|] == Click(v.ip, v.timestamp, Some(v.userAgent))
  {
  }

  /** Recording keeps the addresses distinct. */
  lemma RecordKeepsDistinct(log: seq<Click>, v: Visit)
    ensures DistinctIps(log) ==> DistinctIps(Record(log, v))
  {
  }

  /** The same address visiting twice in a row gives the log of the first
      visit alone, whatever the second visit's time and user agent. */
  lemma RecordIdempotent(log: seq<Click>, v: Visit, w: Visit)
    requires v.ip == w.ip
    ensures Record(Record(log, v), w) == Record(log, v)
  {
  }

  /** A request from a new address appends the record of its resolved
      address, its time, and its `User-Agent` header or "Unknown" when the
      header is absent. */
  lemma RecordedRequest(log: seq<Click>, headers: map<string, string>, peer: string, now: string)
    requires ResolveClientIp(headers, peer) !in Ips(log)
    ensures UserAgentHeader in headers ==>
              Record(log, VisitOf(headers, peer, now)) == log + [Click(ResolveClientIp(headers, peer), now, Some(headers[UserAgentHeader]))]
    ensures UserAgentHeader !in headers ==>
              Record(log, VisitOf(headers, peer, now)) == log + [Click(ResolveClientIp(headers, peer), now, Some(UnknownAgent))]
  {
  }

  /** The log after `visits`, made one after the other, on an empty store. */
  function Replay(visits: seq<Visit>): (log: seq<Click>) {
    if visits == [] then [] else Record(Replay(visits[..|visits| - 1]), visits[|visits| - 1])
  }

  /** The addresses of `visits`, in order. */
  function VisitIps(visits: seq<Visit>): (ips: seq<string>) {
    seq(|visits|, i requires 0 <= i < |visits| => visits[i].ip)
  }

  /** The position of the first visit from `ip`. */
  function FirstVisit(visits: seq<Visit>, ip: string): (k: nat)
    requires ip in VisitIps(visits)
    ensures k < |visits| && visits[k].ip == ip
    ensures forall j | 0 <= j < k :: visits[j].ip != ip
  {
    var prefix := visits[..|visits| - 1];
    if ip in VisitIps(prefix) then
      var k := FirstVisit(prefix, ip);
      assert visits[k] == prefix[k];
      k
    else
      assert forall j | 0 <= j < |prefix| :: VisitIps(prefix)[j] == visits[j].ip;
      |visits| - 1
  }

  lemma IpsSnoc(log: seq<Click>, c: Click)
    ensures Ips(log + [c]) == Ips(log) + [c.ip]
  {
    assert forall i | 0 <= i < |log| :: (log + [c])[i] == log[i];
  }

  /** The log records each address once. */
  lemma {:induction false} DistinctCount(log: seq<Click>)
    ensures DistinctIps(log) ==> |Elements(Ips(log))| == |log|
  {
    if DistinctIps(log) && log != [] {
      var prefix := log[..|log| - 1];
      var last := log[|log| - 1];
      DistinctCount(prefix);
      assert log == prefix + [last];
      IpsSnoc(prefix, last);
      assert Elements(Ips(log)) == Elements(Ips(prefix)) + {last.ip};
      assert last.ip !in Ips(prefix);
    }
  }

  lemma VisitIpsSnoc(visits: seq<Visit>)
    requires visits != []
    ensures VisitIps(visits) == VisitIps(visits[..|visits| - 1]) + [visits[|visits| - 1].ip]
  {
  }

  /** Sequential tracking never records an address twice. */
  lemma {:induction false} ReplayDistinct(visits: seq<Visit>)
    ensures DistinctIps(Replay(visits))
  {
    if visits != [] {
      ReplayDistinct(visits[..|visits| - 1]);
      RecordKeepsDistinct(Replay(visits[..|visits| - 1]), visits[|visits| - 1]);
    }
  }

  /** Sequential tracking records exactly the addresses that visited. */
  lemma {:induction false} ReplayIpSet(visits: seq<Visit>)
    ensures Elements(Ips(Replay(visits))) == Elements(VisitIps(visits))
  {
    if visits != [] {
      var prefix := visits[..|visits| - 1];
      var v := visits[|visits| - 1];
      var before := Replay(prefix);
      ReplayIpSet(prefix);
      VisitIpsSnoc(visits);
      ElementsSnoc(VisitIps(prefix), v.ip);
      if v.ip !in Ips(before) {
        IpsSnoc(before, NewClick(v));
        ElementsSnoc(Ips(before), v.ip);
      }
    }
  }

  /** Each record of a sequential log is the record of its address's first
      visit: its time and user agent are those of that visit. */
  lemma {:induction false} ReplayFirstVisits(visits: seq<Visit>, k: nat)
    requires k < |Replay(visits)|
    ensures Replay(visits)[k].ip in VisitIps(visits)
    ensures Replay(visits)[k] == NewClick(visits[FirstVisit(visits, Replay(visits)[k].ip)])
  {
    var prefix := visits[..|visits| - 1];
    var v := visits[|visits| - 1];
    var before := Replay(prefix);
    VisitIpsSnoc(visits);
    if k < |before| {
      ReplayFirstVisits(prefix, k);
      assert Replay(visits)[k] == before[k];
    } else {
      assert v.ip !in Ips(before) && Replay(visits)[k] == NewClick(v);
      ReplayIpSet(prefix);
      assert v.ip !in Elements(VisitIps(prefix));
    }
  }

  /** Sequential tracking on an empty store: the log holds one record per
      distinct address among the visits, no address twice, and each record
      is that of the address's first visit (its time and user agent). */
  lemma ReplayUniqueVisitors(visits: seq<Visit>)
    ensures DistinctIps(Replay(visits))
    ensures Elements(Ips(Replay(visits))) == Elements(VisitIps(visits))
    ensures |Replay(visits)| == |Elements(VisitIps(visits))|
    ensures forall k | 0 <= k < |Replay(visits)| ::
              Replay(visits)[k].ip in VisitIps(visits)
              && Replay(visits)[k] == NewClick(visits[FirstVisit(visits, Replay(visits)[k].ip)])
  {
    ReplayDistinct(visits);
    ReplayIpSet(visits);
    DistinctCount(Replay(visits));
    forall k | 0 <= k < |Replay(visits)|
      ensures Replay(visits)[k].ip in VisitIps(visits)
      ensures Replay(visits)[k] == NewClick(visits[FirstVisit(visits, Replay(visits)[k].ip)])
    {
      ReplayFirstVisits(visits, k);
    }
  }

  /** The tracking scenario: a first visit from 10.0.0.1 is recorded with
      its user agent, a second visit from the same peer changes nothing. */
  lemma RepeatVisitScenario(first: string, second: string)
    ensures var v1 := VisitOf(map[UserAgentHeader := "curl/8.0"], "10.0.0.1", first);
            var v2 := VisitOf(map[UserAgentHeader := "curl/8.0"], "10.0.0.1", second);
            Record([], v1) == [Click("10.0.0.1", first, Some("curl/8.0"))]
            && Record(Record([], v1), v2) == Record([], v1)
  {
    var v1 := VisitOf(map[UserAgentHeader := "curl/8.0"], "10.0.0.1", first);
    var v2 := VisitOf(map[UserAgentHeader := "curl/8.0"], "10.0.0.1", second);
    RecordIdempotent([], v1, v2);
  }

  /** The payload of `api_stats`. */
  datatype Stats = Stats(totalUniqueVisitors: nat, clicks: seq<Click>, targetUrl: string)

  /** `api_stats`: the loaded log, its length as the visitor total, and
      the redirect target; None (a server error) when loading raises. On a
      log without repeated addresses the total is the number of distinct
      visitors. */
  function ApiStats(stored: LoadOutcome): (s: Option<Stats>)
    ensures s.None? <==> LoadClicks(stored).None?
    ensures s.Some? ==> s.value.clicks == LoadClicks(stored).value && s.value.targetUrl == TargetUrl
    ensures s.Some? ==> s.value.totalUniqueVisitors == |s.value.clicks|
    ensures s.Some? && DistinctIps(s.value.clicks) ==> s.value.totalUniqueVisitors == |Elements(Ips(s.value.clicks))|
  {
    match LoadClicks(stored)
    case None => None
    case Some(clicks) =>
      DistinctCount(clicks);
      Some(Stats(|clicks|, clicks, TargetUrl))
  }

  /** The tracker's persistent state: `stored` is what reading the JSON
      store gives, which every request does afresh, and `csv` the rows of
      the CSV export, None until this tracker writes one. */
  class Tracker {
    var stored: LoadOutcome
    var csv: Option<seq<Row>>

    /** The JSON store holds `log` and the export holds exactly its rows. */
    predicate Holds(log: seq<Click>)
      reads this
    {
      stored == Decoded(ClickLogDoc(log)) && csv == Some(CsvRows(log))
    }

    /** Opens the store in the state that reading its JSON file gives. */
    constructor Open(stored: LoadOutcome)
      ensures this.stored == stored && csv == None
    {
      this.stored := stored;
      csv := None;
    }

    /** `save_data`: the JSON file is rewritten with the log, which the
        next load returns, and the CSV export with its rows. */
    method Save(log: seq<Click>)
      modifies this
      ensures Holds(log) && LoadClicks(stored) == Some(log)
    {
      stored := Decoded(ClickLogDoc(log));
      var rows := ExportRows(log);
      csv := Some(rows);
    }

    /** `track_click`: resolve the client, load the log, append a record
        when its address is new and save, and redirect. A load that raises
        makes the request a server error that changes nothing. */
    method Track(headers: map<string, string>, peer: string, now: string) returns (response: Response, saved: bool)
      modifies this
      ensures LoadClicks(old(stored)).None? ==>
                response == ServerError && !saved && stored == old(stored) && csv == old(csv)
      ensures LoadClicks(old(stored)).Some? ==> response == Redirect(302, TargetUrl)
      ensures saved <==> LoadClicks(old(stored)).Some? && ResolveClientIp(headers, peer) !in Ips(LoadClicks(old(stored)).value)
      ensures LoadClicks(old(stored)).Some? ==>
                LoadClicks(stored) == Some(Record(LoadClicks(old(stored)).value, VisitOf(headers, peer, now)))
      ensures saved ==> Holds(LoadClicks(stored).value)
      ensures !saved ==> stored == old(stored) && csv == old(csv)
      ensures LoadClicks(old(stored)).Some? && DistinctIps(LoadClicks(old(stored)).value) ==>
                DistinctIps(LoadClicks(stored).value)
    {
      var v := VisitOf(headers, peer, now);
      var loaded := LoadClicks(stored);
      if loaded.None? {
        response, saved := ServerError, false;
        return;
      }
      var clicks := loaded.value;
      var existing := Ips(clicks);
      if v.ip !in existing {
        Save(clicks + [NewClick(v)]);
        saved := true;
      } else {
        saved := false;
      }
      RecordKeepsDistinct(clicks, v);
      response := Redirect(302, TargetUrl);
    }
  }
}
