/** Performance records under two indexes: by time and by client. */
module MetricsStore {
  import opened Options

  datatype Entry<T> = Entry(timestamp: string, client: string, metrics: T)

  // ----- one log of inserts, as the two indexes should show it

  function HistoryOf<T>(log: seq<Entry<T>>, client: string): seq<(string, T)> {
    if log == [] then [] else
      var e := log[|log| - 1];
      HistoryOf(log[..|log| - 1], client) + if e.client == client then [(e.timestamp, e.metrics)] else []
  }

  /** The last entry of a history with the given time. */
  function LastAt<T>(history: seq<(string, T)>, timestamp: string): Option<T> {
    if history == [] then None
    else if history[|history| - 1].0 == timestamp then Some(history[|history| - 1].1)
    else LastAt(history[..|history| - 1], timestamp)
  }

  lemma LastAtAppend<T>(history: seq<(string, T)>, e: (string, T), timestamp: string)
    ensures LastAt(history + [e], timestamp) == if e.0 == timestamp then Some(e.1) else LastAt(history, timestamp)
  {
  }

  type TimeIndex<T> = map<string, map<string, T>>
  type ClientIndex<T> = map<string, seq<(string, T)>>

  function ClientsAt<T>(m: TimeIndex<T>, timestamp: string): map<string, T> {
    if timestamp in m then m[timestamp] else map[]
  }

  function History<T>(m: ClientIndex<T>, client: string): seq<(string, T)> {
    if client in m then m[client] else []
  }

  function Lookup<T>(m: TimeIndex<T>, timestamp: string, client: string): Option<T> {
    if client in ClientsAt(m, timestamp) then Some(ClientsAt(m, timestamp)[client]) else None
  }

  /** The value found by time and client is the client's last entry at that time, and neither without the other. */
  ghost predicate Agree<T>(byTime: TimeIndex<T>, byClient: ClientIndex<T>) {
    forall t, c :: Lookup(byTime, t, c) == LastAt(History(byClient, c), t)
  }

  lemma InsertKeepsAgreement<T>(byTime: TimeIndex<T>, byClient: ClientIndex<T>, e: Entry<T>)
    requires Agree(byTime, byClient)
    ensures Agree(byTime[e.timestamp := ClientsAt(byTime, e.timestamp)[e.client := e.metrics]],
                  byClient[e.client := History(byClient, e.client) + [(e.timestamp, e.metrics)]])
  {
    var byTime' := byTime[e.timestamp := ClientsAt(byTime, e.timestamp)[e.client := e.metrics]];
    var byClient' := byClient[e.client := History(byClient, e.client) + [(e.timestamp, e.metrics)]];
    forall t, c ensures Lookup(byTime', t, c) == LastAt(History(byClient', c), t) {
      assert Lookup(byTime, t, c) == LastAt(History(byClient, c), t);
      LastAtAppend(History(byClient, e.client), (e.timestamp, e.metrics), t);
    }
  }

  class Store<T> {
    var timeIndex: TimeIndex<T>
    var clientIndex: ClientIndex<T>
    ghost var log: seq<Entry<T>>

    /** Each history is the client's part of the log, and the two indexes agree everywhere. */
    ghost predicate Valid()
      reads this
    {
      && (forall c :: History(clientIndex, c) == HistoryOf(log, c))
      && Agree(timeIndex, clientIndex)
    }

    constructor ()
      ensures Valid() && log == []
    {
      timeIndex, clientIndex, log := map[], map[], [];
    }

    method Insert(timestamp: string, client: string, metrics: T)
      requires Valid()
      modifies this
      ensures Valid() && log == old(log) + [Entry(timestamp, client, metrics)]
    {
      InsertKeepsAgreement(timeIndex, clientIndex, Entry(timestamp, client, metrics));
      hide Agree;
      timeIndex := timeIndex[timestamp := ClientsAt(timeIndex, timestamp)[client := metrics]];
      clientIndex := clientIndex[client := History(clientIndex, client) + [(timestamp, metrics)]];
      log := log + [Entry(timestamp, client, metrics)];
      assert log[..|log| - 1] == old(log);
      forall c ensures History(clientIndex, c) == HistoryOf(log, c) {
        assert History(old(clientIndex), c) == HistoryOf(old(log), c);
        assert HistoryOf(old(log), c) + [] == HistoryOf(old(log), c);
      }
    }

    method GetClientsAt(timestamp: string) returns (r: map<string, T>)
      requires Valid()
      ensures forall c :: (if c in r then Some(r[c]) else None) == LastAt(HistoryOf(log, c), timestamp)
    {
      r := ClientsAt(timeIndex, timestamp);
      forall c ensures (if c in r then Some(r[c]) else None) == LastAt(HistoryOf(log, c), timestamp) {
        assert Lookup(timeIndex, timestamp, c) == LastAt(History(clientIndex, c), timestamp);
      }
    }

    method GetClientHistory(client: string) returns (r: seq<(string, T)>)
      requires Valid()
      ensures r == HistoryOf(log, client)
    {
      r := History(clientIndex, client);
    }
  }

  /** Over every run of inserts both indexes show exactly what was inserted. */
  method InsertAll<T>(entries: seq<Entry<T>>) returns (s: Store<T>)
    ensures s.Valid() && s.log == entries
  {
    s := new Store<T>();
    for i := 0 to |entries|
      invariant fresh(s) && s.Valid() && s.log == entries[..i]
    {
      s.Insert(entries[i].timestamp, entries[i].client, entries[i].metrics);
    }
    assert entries[..|entries|] == entries;
  }
}
