/**
 * The request history: entries keyed by method and URL, at most 20 of them, shown as rows of a
 * list with the most recently added or updated on top. Each row is named by its key. Two orders
 * are kept: the rows' display order and the order in which the keys were first stored (Python's
 * dict order), which decides what is evicted.
 */
module History {
  import opened Optional
  import opened Request

  const MaxItems: nat := 20

  /** The symbol in a row's subtitle. */
  datatype StatusKind = Success | Redirect | Failure

  function StatusKindOf(statusCode: int): (k: StatusKind)
  {
    if 200 <= statusCode < 300 then Success
    else if 300 <= statusCode < 400 then Redirect
    else Failure
  }

  /** What a row's subtitle shows: the status symbol, the status code and the response time. */
  datatype Subtitle = Subtitle(kind: StatusKind, statusCode: int, responseTime: real)

  function SubtitleOf(response: ResponseRecord): Subtitle
  {
    Subtitle(StatusKindOf(response.statusCode), response.statusCode, response.responseTime)
  }

  /** A request exception (status 0) is shown as a failure. */
  lemma ErrorRecordShownAsFailure(message: string)
    ensures SubtitleOf(ErrorRecord(message)).kind == Failure
    ensures forall code :: StatusKindOf(code) == Success <==> 200 <= code < 300
    ensures forall code :: StatusKindOf(code) == Redirect <==> 300 <= code < 400
  {
  }

  datatype HistoryEntry = HistoryEntry(httpMethod: string, url: string, response: ResponseRecord, body: string,
                                       headers: Headers, subtitle: Subtitle)

  /** `f"{method}_{url}"` */
  function RequestKey(httpMethod: string, url: string): string
  {
    httpMethod + "_" + url
  }

  // ---------------------------------------------------------------------------------------------
  // Sequences of keys

  predicate Distinct(s: seq<string>)
  {
    forall i, j :: 0 <= i < j < |s| ==> s[i] != s[j]
  }

  /** `s` with `k` removed (a row taken out of the list box, a key out of the dict order). */
  function Without(s: seq<string>, k: string): (r: seq<string>)
    ensures forall x :: x in r <==> x in s && x != k
    decreases |s|
  {
    if s == [] then [] else (if s[0] == k then [] else [s[0]]) + Without(s[1..], k)
  }

  lemma {:induction false} WithoutDistinct(s: seq<string>, k: string)
    requires Distinct(s)
    ensures Distinct(Without(s, k))
    ensures k in s ==> |Without(s, k)| == |s| - 1
    ensures k !in s ==> Without(s, k) == s
    decreases |s|
  {
    if s != [] {
      WithoutDistinct(s[1..], k);
      assert s[0] !in s[1..];
    }
  }

  lemma WithoutFirst(s: seq<string>)
    requires Distinct(s) && s != []
    ensures Without(s, s[0]) == s[1..]
  {
    assert s[0] !in s[1..];
    WithoutDistinct(s[1..], s[0]);
  }

  function KeySet(s: seq<string>): set<string>
  {
    set x | x in s
  }

  lemma {:induction false} DistinctCard(s: seq<string>)
    requires Distinct(s)
    ensures |KeySet(s)| == |s|
    decreases |s|
  {
    if s != [] {
      DistinctCard(s[1..]);
      assert KeySet(s) == {s[0]} + KeySet(s[1..]);
      assert s[0] !in KeySet(s[1..]);
    }
  }

  // ---------------------------------------------------------------------------------------------
  // The store as a value

  /** Entries by key, keys in the order they were stored, and the rows from the top. */
  datatype Store = Store(data: map<string, HistoryEntry>, order: seq<string>, rows: seq<string>)

  const Empty: Store := Store(map[], [], [])

  /**
   * Both orders list every key exactly once, and each entry is stored under its method and URL;
   * the size bound is kept apart because it is exceeded for a moment before an eviction.
   */
  ghost predicate Consistent(st: Store)
  {
    && Distinct(st.order) && Distinct(st.rows)
    && st.data.Keys == KeySet(st.order) && st.data.Keys == KeySet(st.rows)
    && forall k :: k in st.data ==> k == RequestKey(st.data[k].httpMethod, st.data[k].url)
  }

  ghost predicate ValidStore(st: Store)
  {
    Consistent(st) && |st.data| <= MaxItems
  }

  lemma SizeIsOrderLength(st: Store)
    requires Consistent(st)
    ensures |st.data| == |st.order| == |st.rows|
  {
    DistinctCard(st.order);
    DistinctCard(st.rows);
  }

  /** `remove_history_item` */
  function RemoveItem(st: Store, key: string): Store
  {
    if key in st.data then Store(st.data - {key}, Without(st.order, key), Without(st.rows, key)) else st
  }

  /** `_remove_oldest_item`: the first key of the dict order goes (there is none only when the store is empty). */
  function RemoveOldest(st: Store): Store
  {
    if st.order == [] then st else RemoveItem(st, st.order[0])
  }

  /** The store with a new entry: its row on top, its key at the end of the dict order. */
  function Grow(st: Store, key: string, entry: HistoryEntry): Store
  {
    Store(st.data[key := entry], st.order + [key], [key] + st.rows)
  }

  /** `_create_history_item`: the new entry is stored, then the bound is enforced. */
  function Create(st: Store, key: string, httpMethod: string, url: string, response: ResponseRecord, body: string,
                  headers: Headers): Store
  {
    var grown := Grow(st, key, HistoryEntry(httpMethod, url, response, body, headers, SubtitleOf(response)));
    if |grown.data| > MaxItems then RemoveOldest(grown) else grown
  }

  /** `_update_history_item`: the stored response and subtitle are replaced and the row moves to the top. */
  function Update(st: Store, key: string, response: ResponseRecord): Store
  {
    if key !in st.data then st
    else
      var entry := st.data[key].(response := response, subtitle := SubtitleOf(response));
      Store(st.data[key := entry], st.order, [key] + Without(st.rows, key))
  }

  /** `add_to_history` */
  function Add(st: Store, httpMethod: string, url: string, response: ResponseRecord, body: string, headers: Headers): Store
  {
    if url == [] then st
    else
      var key := RequestKey(httpMethod, url);
      if key in st.data then Update(st, key, response) else Create(st, key, httpMethod, url, response, body, headers)
  }

  lemma RemoveItemSpec(st: Store, key: string)
    requires Consistent(st)
    ensures var r := RemoveItem(st, key);
      && Consistent(r)
      && (key !in st.data ==> r == st)
      && (key in st.data ==>
            && r.data.Keys == st.data.Keys - {key} && key !in r.order && key !in r.rows
            && |r.data| == |st.data| - 1
            && (forall k :: k in r.data ==> r.data[k] == st.data[k]))
  {
    WithoutDistinct(st.order, key);
    WithoutDistinct(st.rows, key);
  }

  /** Adding keeps the store consistent and never lets it grow beyond 20 entries. */
  lemma AddValid(st: Store, httpMethod: string, url: string, response: ResponseRecord, body: string, headers: Headers)
    requires ValidStore(st)
    ensures ValidStore(Add(st, httpMethod, url, response, body, headers))
  {
    if url != [] {
      var key := RequestKey(httpMethod, url);
      if key in st.data {
        UpdateSpec(st, key, response);
      } else {
        CreateValid(st, key, httpMethod, url, response, body, headers);
      }
    }
  }

  lemma DistinctAdd(s: seq<string>, k: string)
    requires Distinct(s) && k !in s
    ensures Distinct(s + [k]) && Distinct([k] + s)
    ensures KeySet(s + [k]) == KeySet(s) + {k} && KeySet([k] + s) == KeySet(s) + {k}
  {
    assert forall i :: 0 <= i < |s| ==> (s + [k])[i] == s[i] && ([k] + s)[i + 1] == s[i];
  }

  lemma GrowSpec(st: Store, key: string, entry: HistoryEntry)
    requires Consistent(st) && key !in st.data && key == RequestKey(entry.httpMethod, entry.url)
    ensures Consistent(Grow(st, key, entry)) && |Grow(st, key, entry).data| == |st.data| + 1
  {
    assert key !in KeySet(st.order) && key !in KeySet(st.rows);
    DistinctAdd(st.order, key);
    DistinctAdd(st.rows, key);
  }

  lemma UpdateSpec(st: Store, key: string, response: ResponseRecord)
    requires Consistent(st)
    ensures Consistent(Update(st, key, response)) && Update(st, key, response).data.Keys == st.data.Keys
    ensures |Update(st, key, response).data| == |st.data|
  {
    if key in st.data {
      WithoutDistinct(st.rows, key);
      assert KeySet([key] + Without(st.rows, key)) == KeySet(st.rows);
      assert |Update(st, key, response).data.Keys| == |st.data.Keys|;
    }
  }

  lemma CreateValid(st: Store, key: string, httpMethod: string, url: string, response: ResponseRecord, body: string,
                    headers: Headers)
    requires ValidStore(st) && key !in st.data && key == RequestKey(httpMethod, url)
    ensures ValidStore(Create(st, key, httpMethod, url, response, body, headers))
  {
    var grown := Grow(st, key, HistoryEntry(httpMethod, url, response, body, headers, SubtitleOf(response)));
    GrowSpec(st, key, grown.data[key]);
    if |grown.data| > MaxItems {
      SizeIsOrderLength(grown);
      RemoveItemSpec(grown, grown.order[0]);
    }
  }

  /** An empty URL leaves the store exactly as it was. */
  lemma AddWithoutUrl(st: Store, httpMethod: string, response: ResponseRecord, body: string, headers: Headers)
    ensures Add(st, httpMethod, "", response, body, headers) == st
  {
  }

  /**
   * Adding a key that is already stored replaces its response (and subtitle) only and moves its
   * row to the top: method, URL, body and headers stay, as do the other entries, the number of
   * entries and the dict order.
   */
  lemma AddExisting(st: Store, httpMethod: string, url: string, response: ResponseRecord, body: string, headers: Headers)
    requires ValidStore(st) && url != [] && RequestKey(httpMethod, url) in st.data
    ensures var key := RequestKey(httpMethod, url); var before := st.data[key];
      var r := Add(st, httpMethod, url, response, body, headers);
      && r.data.Keys == st.data.Keys && r.order == st.order
      && r.rows == [key] + Without(st.rows, key) && |r.rows| == |st.rows|
      && r.data[key] == HistoryEntry(before.httpMethod, before.url, response, before.body, before.headers, SubtitleOf(response))
      && (forall k :: k in st.data && k != key ==> r.data[k] == st.data[k])
  {
    WithoutDistinct(st.rows, RequestKey(httpMethod, url));
  }

  /**
   * Adding a new key stores every field under it and puts its row on top. Below the bound nothing
   * else changes; at the bound exactly one other entry goes, the earliest stored, so the count
   * stays 20.
   */
  lemma CreateSpec(st: Store, key: string, httpMethod: string, url: string, response: ResponseRecord, body: string,
                   headers: Headers)
    requires ValidStore(st) && key !in st.data && key == RequestKey(httpMethod, url)
    ensures var entry := HistoryEntry(httpMethod, url, response, body, headers, SubtitleOf(response));
      var r := Create(st, key, httpMethod, url, response, body, headers);
      && ValidStore(r)
      && key in r.data && r.data[key] == entry && r.rows[0] == key
      && (|st.data| < MaxItems ==> r == Store(st.data[key := entry], st.order + [key], [key] + st.rows))
      && (|st.data| == MaxItems ==>
            && r.data == (st.data - {st.order[0]})[key := entry]
            && r.order == st.order[1..] + [key]
            && r.rows == Without([key] + st.rows, st.order[0])
            && |r.data| == MaxItems)
  {
    CreateValid(st, key, httpMethod, url, response, body, headers);
    if |st.data| == MaxItems {
      var entry := HistoryEntry(httpMethod, url, response, body, headers, SubtitleOf(response));
      CreateAtBound(st, key, entry);
      CreateAtBoundSize(st, key, entry);
    }
  }

  /** At the bound, growing and then removing the oldest entry replaces `order[0]` by the new key. */
  lemma CreateAtBound(st: Store, key: string, entry: HistoryEntry)
    requires ValidStore(st) && key !in st.data && key == RequestKey(entry.httpMethod, entry.url) && |st.data| == MaxItems
    ensures var r := RemoveOldest(Grow(st, key, entry));
      && r.data == (st.data - {st.order[0]})[key := entry]
      && r.order == st.order[1..] + [key]
      && r.rows == Without([key] + st.rows, st.order[0]) && r.rows[0] == key
  {
    var grown := Grow(st, key, entry);
    SizeIsOrderLength(st);
    var oldest := st.order[0];
    assert grown.order[0] == oldest;
    assert oldest in st.data && oldest != key;
    WithoutFirst(grown.order);
    RemoveAfterInsert(st.data, key, entry, oldest);
    assert ([key] + st.rows)[1..] == st.rows;
  }

  lemma RemoveAfterInsert(m: map<string, HistoryEntry>, key: string, entry: HistoryEntry, gone: string)
    requires key != gone
    ensures m[key := entry] - {gone} == (m - {gone})[key := entry]
  {
  }

  /** ... and leaves exactly 20 entries. */
  lemma CreateAtBoundSize(st: Store, key: string, entry: HistoryEntry)
    requires ValidStore(st) && key !in st.data && key == RequestKey(entry.httpMethod, entry.url) && |st.data| == MaxItems
    ensures |RemoveOldest(Grow(st, key, entry)).data| == MaxItems
  {
    var grown := Grow(st, key, entry);
    SizeIsOrderLength(st);
    var oldest := st.order[0];
    assert grown.order[0] == oldest;
    assert oldest in st.data && oldest != key;
    assert (grown.data - {oldest}).Keys == grown.data.Keys - {oldest};
    assert |grown.data.Keys| == |st.data.Keys| + 1;
  }

  /**
   * Eviction follows the order of creation, not of use: the earliest stored request is evicted
   * by the next new request even right after an update has moved its row to the top.
   */
  lemma EvictsEarliestCreatedEvenIfRecent(st: Store, response: ResponseRecord, body: string, headers: Headers,
                                          newMethod: string, newUrl: string, newResponse: ResponseRecord)
    requires ValidStore(st) && |st.data| == MaxItems
    requires var e := st.data[st.order[0]]; e.url != []
    requires newUrl != [] && RequestKey(newMethod, newUrl) !in st.data
    ensures var oldest := st.order[0]; var e := st.data[oldest];
      var touched := Add(st, e.httpMethod, e.url, response, body, headers);
      var after := Add(touched, newMethod, newUrl, newResponse, body, headers);
      && touched.rows[0] == oldest
      && oldest !in after.data && RequestKey(newMethod, newUrl) in after.data
  {
    SizeIsOrderLength(st);
    var oldest := st.order[0];
    assert oldest in st.data;
    var e := st.data[oldest];
    AddExisting(st, e.httpMethod, e.url, response, body, headers);
    var touched := Add(st, e.httpMethod, e.url, response, body, headers);
    AddValid(st, e.httpMethod, e.url, response, body, headers);
    CreateSpec(touched, RequestKey(newMethod, newUrl), newMethod, newUrl, newResponse, body, headers);
  }

  // ---------------------------------------------------------------------------------------------
  // The manager

  class HistoryManager {
    /** `history_data` */
    var historyData: map<string, HistoryEntry>
    /** the key order of `history_data` */
    var keyOrder: seq<string>
    /** the rows of `history_list`, from the top */
    var rows: seq<string>
    const maxItems: nat

    function Abs(): Store
      reads this
    {
      Store(historyData, keyOrder, rows)
    }

    ghost predicate Valid()
      reads this
    {
      maxItems == MaxItems && ValidStore(Abs())
    }

    constructor()
      ensures Valid() && Abs() == Empty
    {
      historyData := map[];
      keyOrder := [];
      rows := [];
      maxItems := 20;
    }

    method AddToHistory(httpMethod: string, url: string, response: ResponseRecord, requestBody: string, headers: Headers)
      requires Valid()
      modifies this
      ensures Valid() && Abs() == Add(old(Abs()), httpMethod, url, response, requestBody, headers)
    {
      if url == [] {
        return;
      }
      var requestKey := httpMethod + "_" + url;
      if requestKey in historyData {
        UpdateHistoryItem(requestKey, response);
      } else {
        CreateHistoryItem(requestKey, httpMethod, url, response, requestBody, headers);
      }
    }

    method ClearHistory()
      requires Valid()
      modifies this
      ensures Valid() && Abs() == Empty
    {
      var keys := keyOrder;
      for i := 0 to |keys|
        invariant maxItems == MaxItems && Consistent(Abs())
        invariant keyOrder == keys[i..]
      {
        WithoutFirst(keyOrder);
        assert keyOrder[0] == keys[i] && keys[i..][1..] == keys[i + 1..];
        RemoveHistoryItem(keys[i]);
      }
      SizeIsOrderLength(Abs());
    }

    /** `get_history_data`: the stored entry, if any. */
    function GetHistoryData(requestKey: string): (r: Option<HistoryEntry>)
      reads this
      ensures r.Some? <==> requestKey in historyData
      ensures r.Some? ==> r.value == historyData[requestKey]
    {
      if requestKey in historyData then Some(historyData[requestKey]) else None
    }

    /** `get_request_key_from_row`: the key whose row is `row`, searched in dict order. */
    method GetRequestKeyFromRow(row: string) returns (r: Option<string>)
      requires Valid()
      ensures r == if row in historyData then Some(row) else None
    {
      for i := 0 to |keyOrder|
        invariant row !in keyOrder[..i]
      {
        if keyOrder[i] == row {
          return Some(keyOrder[i]);
        }
      }
      assert keyOrder[..|keyOrder|] == keyOrder;
      return None;
    }

    method CreateHistoryItem(requestKey: string, httpMethod: string, url: string, response: ResponseRecord,
                             requestBody: string, headers: Headers)
      requires Valid() && requestKey !in historyData && requestKey == RequestKey(httpMethod, url)
      modifies this
      ensures Valid() && Abs() == Create(old(Abs()), requestKey, httpMethod, url, response, requestBody, headers)
    {
      GrowSpec(Abs(), requestKey, HistoryEntry(httpMethod, url, response, requestBody, headers, SubtitleOf(response)));
      rows := [requestKey] + rows;
      historyData := historyData[requestKey := HistoryEntry(httpMethod, url, response, requestBody, headers, SubtitleOf(response))];
      keyOrder := keyOrder + [requestKey];
      if |historyData| > maxItems {
        RemoveOldestItem();
      }
      CreateValid(old(Abs()), requestKey, httpMethod, url, response, requestBody, headers);
    }

    method UpdateHistoryItem(requestKey: string, response: ResponseRecord)
      requires Valid()
      modifies this
      ensures Valid() && Abs() == Update(old(Abs()), requestKey, response)
    {
      if requestKey !in historyData {
        return;
      }
      var data := historyData[requestKey];
      UpdateSpec(Abs(), requestKey, response);
      ghost var next := Update(Abs(), requestKey, response);
      historyData := historyData[requestKey := data.(response := response, subtitle := SubtitleOf(response))];
      rows := [requestKey] + Without(rows, requestKey);
      assert Abs() == next;
    }

    method RemoveOldestItem()
      requires maxItems == MaxItems && Consistent(Abs())
      modifies this
      ensures maxItems == MaxItems && Consistent(Abs()) && Abs() == RemoveOldest(old(Abs()))
    {
      if historyData == map[] {
        SizeIsOrderLength(Abs());
        return;
      }
      assert keyOrder[0] in historyData;
      var oldestKey := keyOrder[0];
      RemoveHistoryItem(oldestKey);
    }

    method RemoveHistoryItem(requestKey: string)
      requires maxItems == MaxItems && Consistent(Abs())
      modifies this
      ensures maxItems == MaxItems && Consistent(Abs()) && Abs() == RemoveItem(old(Abs()), requestKey)
    {
      RemoveItemSpec(Abs(), requestKey);
      if requestKey in historyData {
        rows := Without(rows, requestKey);
        historyData := historyData - {requestKey};
        keyOrder := Without(keyOrder, requestKey);
      }
    }
  }
}
