/**
 * `HeadersPanel`: an editable list of header rows (a name entry, a value entry and a delete
 * button), filled with three defaults and read back as a dictionary. A row is identified by the
 * widget it is, modelled as an id handed out when it is created; the texts of its entries are its
 * `key` and `value`.
 */
module Headers {
  import opened PyStr

  datatype HeaderRow = HeaderRow(id: nat, key: string, value: string)

  const DefaultHeaders: seq<(string, string)> :=
    [("Content-Type", "application/json"), ("User-Agent", "Rappit/1.0"), ("Accept", "*/*")]

  /** The (key, value) texts of the rows, in display order. */
  function Entries(rows: seq<HeaderRow>): (es: seq<(string, string)>)
    ensures |es| == |rows| && forall i :: 0 <= i < |rows| ==> es[i] == (rows[i].key, rows[i].value)
  {
    if rows == [] then [] else [(rows[0].key, rows[0].value)] + Entries(rows[1..])
  }

  /** The rows left after the row widget `id` is removed from the list. */
  function RemoveRow(rows: seq<HeaderRow>, id: nat): seq<HeaderRow>
  {
    if rows == [] then [] else (if rows[0].id == id then [] else [rows[0]]) + RemoveRow(rows[1..], id)
  }

  /** Each row widget is in the list at most once. */
  predicate DistinctIds(rows: seq<HeaderRow>)
  {
    forall i, j :: 0 <= i < j < |rows| ==> rows[i].id != rows[j].id
  }

  /**
   * Deleting removes exactly the row `id`: when it is listed, the rows before it and after it stay
   * in order; otherwise nothing changes.
   */
  lemma {:induction false} RemoveRowSpec(rows: seq<HeaderRow>, id: nat)
    requires DistinctIds(rows)
    ensures forall i :: 0 <= i < |rows| && rows[i].id == id ==> RemoveRow(rows, id) == rows[..i] + rows[i + 1..]
    ensures (forall i :: 0 <= i < |rows| ==> rows[i].id != id) ==> RemoveRow(rows, id) == rows
  {
    forall i | 0 <= i < |rows| && rows[i].id == id
      ensures RemoveRow(rows, id) == rows[..i] + rows[i + 1..]
    {
      RemoveRowAt(rows, id, i);
    }
    if forall i :: 0 <= i < |rows| ==> rows[i].id != id {
      RemoveRowAbsent(rows, id);
    }
  }

  /** An id no row carries removes nothing. */
  lemma {:induction false} RemoveRowAbsent(rows: seq<HeaderRow>, id: nat)
    requires forall i :: 0 <= i < |rows| ==> rows[i].id != id
    ensures RemoveRow(rows, id) == rows
    decreases |rows|
  {
    if rows != [] {
      forall j | 0 <= j < |rows[1..]|
        ensures rows[1..][j].id != id
      {
        assert rows[1..][j] == rows[j + 1];
      }
      RemoveRowAbsent(rows[1..], id);
      assert [rows[0]] + rows[1..] == rows;
    }
  }

  /** The row at `i` carries `id`, so exactly that row goes. */
  lemma {:induction false} RemoveRowAt(rows: seq<HeaderRow>, id: nat, i: nat)
    requires DistinctIds(rows) && i < |rows| && rows[i].id == id
    ensures RemoveRow(rows, id) == rows[..i] + rows[i + 1..]
    decreases i
  {
    var tail := rows[1..];
    if i == 0 {
      forall j | 0 <= j < |tail|
        ensures tail[j].id != id
      {
        assert tail[j] == rows[j + 1];
      }
      RemoveRowAbsent(tail, id);
      assert RemoveRow(rows, id) == RemoveRow(tail, id);
    } else {
      DistinctTail(rows);
      assert tail[i - 1] == rows[i];
      RemoveRowAt(tail, id, i - 1);
      assert rows[0].id != id;
      assert RemoveRow(rows, id) == [rows[0]] + RemoveRow(tail, id);
      assert tail[..i - 1] == rows[1..i];
      assert tail[i..] == rows[i + 1..];
      assert rows[..i] == [rows[0]] + rows[1..i];
    }
  }

  lemma DistinctTail(rows: seq<HeaderRow>)
    requires DistinctIds(rows) && rows != []
    ensures DistinctIds(rows[1..])
  {
    forall i, j | 0 <= i < j < |rows| - 1
      ensures rows[1..][i].id != rows[1..][j].id
    {
      assert rows[1..][i] == rows[i + 1];
      assert rows[1..][j] == rows[j + 1];
    }
  }

  /** A row counts when both its stripped key and its stripped value are non-empty. */
  predicate Counts(row: HeaderRow)
  {
    Strip(row.key) != [] && Strip(row.value) != []
  }

  /** The stripped (key, value) texts of the rows. */
  function Cleaned(rows: seq<HeaderRow>): (ps: seq<(string, string)>)
    ensures |ps| == |rows| && forall i :: 0 <= i < |rows| ==> ps[i] == (Strip(rows[i].key), Strip(rows[i].value))
    decreases |rows|
  {
    if rows == [] then [] else Cleaned(rows[..|rows| - 1]) + [(Strip(rows[|rows| - 1].key), Strip(rows[|rows| - 1].value))]
  }

  /** Pairs read in order into a dictionary; a pair with an empty side is skipped, a later key overwrites. */
  function Gather(ps: seq<(string, string)>): map<string, string>
    decreases |ps|
  {
    if ps == [] then map[]
    else
      var headers := Gather(ps[..|ps| - 1]);
      var (key, value) := ps[|ps| - 1];
      if key != [] && value != [] then headers[key := value] else headers
  }

  /** The dictionary `get_headers` builds. */
  function Collect(rows: seq<HeaderRow>): map<string, string>
  {
    Gather(Cleaned(rows))
  }

  /** Pair `i` is the last pair with both sides non-empty whose key is `k`. */
  predicate LastPair(ps: seq<(string, string)>, k: string, i: int)
  {
    && 0 <= i < |ps| && ps[i].0 == k && k != [] && ps[i].1 != []
    && forall j :: i < j < |ps| ==> !(ps[j].0 == k && ps[j].1 != [])
  }

  lemma {:induction false} GatherKeys(ps: seq<(string, string)>)
    ensures forall k :: k in Gather(ps) <==> exists i :: 0 <= i < |ps| && ps[i].0 == k && k != [] && ps[i].1 != []
    decreases |ps|
  {
    if ps != [] {
      var init := ps[..|ps| - 1];
      GatherKeys(init);
      assert forall i :: 0 <= i < |init| ==> init[i] == ps[i];
    }
  }

  lemma {:induction false} GatherLastWins(ps: seq<(string, string)>)
    ensures forall k :: k in Gather(ps) ==> exists i :: LastPair(ps, k, i) && Gather(ps)[k] == ps[i].1
    decreases |ps|
  {
    if ps != [] {
      var init := ps[..|ps| - 1];
      var n := |ps| - 1;
      GatherLastWins(init);
      assert forall i :: 0 <= i < n ==> init[i] == ps[i];
      var h := Gather(ps);
      forall k | k in h
        ensures exists i :: LastPair(ps, k, i) && h[k] == ps[i].1
      {
        if ps[n].0 == k && k != [] && ps[n].1 != [] {
          assert LastPair(ps, k, n);
        } else {
          assert k in Gather(init) && h[k] == Gather(init)[k];
          var i :| LastPair(init, k, i) && Gather(init)[k] == init[i].1;
          assert LastPair(ps, k, i);
        }
      }
    }
  }

  /** A key is in the dictionary exactly when some counting row has it, once stripped. */
  lemma CollectKeys(rows: seq<HeaderRow>)
    ensures forall k :: k in Collect(rows) <==> exists i :: 0 <= i < |rows| && Counts(rows[i]) && Strip(rows[i].key) == k
  {
    GatherKeys(Cleaned(rows));
  }

  /** Row `i` is the last counting row whose stripped key is `k`. */
  predicate LastWith(rows: seq<HeaderRow>, k: string, i: int)
  {
    && 0 <= i < |rows| && Counts(rows[i]) && Strip(rows[i].key) == k
    && forall j :: i < j < |rows| ==> !(Counts(rows[j]) && Strip(rows[j].key) == k)
  }

  /** The value under a key is the stripped value of the last counting row with that stripped key. */
  lemma CollectLastWins(rows: seq<HeaderRow>)
    ensures forall k :: k in Collect(rows) ==> exists i :: LastWith(rows, k, i) && Collect(rows)[k] == Strip(rows[i].value)
  {
    var ps := Cleaned(rows);
    GatherLastWins(ps);
    forall k | k in Collect(rows)
      ensures exists i :: LastWith(rows, k, i) && Collect(rows)[k] == Strip(rows[i].value)
    {
      var i :| LastPair(ps, k, i) && Gather(ps)[k] == ps[i].1;
      assert forall j :: i < j < |rows| ==> ps[j] == (Strip(rows[j].key), Strip(rows[j].value));
      assert LastWith(rows, k, i);
    }
  }

  /** Keys and values come out non-empty and without surrounding whitespace. */
  lemma CollectClean(rows: seq<HeaderRow>)
    ensures forall k :: k in Collect(rows) ==> k != [] && Collect(rows)[k] != [] && Strip(k) == k && Strip(Collect(rows)[k]) == Collect(rows)[k]
  {
    var ps := Cleaned(rows);
    GatherLastWins(ps);
    forall k | k in Collect(rows)
      ensures k != [] && Collect(rows)[k] != [] && Strip(k) == k && Strip(Collect(rows)[k]) == Collect(rows)[k]
    {
      var i :| LastPair(ps, k, i) && Gather(ps)[k] == ps[i].1;
      StripIdempotent(rows[i].key);
      StripIdempotent(rows[i].value);
    }
  }

  /** With the three default rows untouched, the dictionary is exactly the defaults. */
  lemma DefaultsCollect(rows: seq<HeaderRow>)
    requires Entries(rows) == DefaultHeaders
    ensures Collect(rows) == map["Content-Type" := "application/json", "User-Agent" := "Rappit/1.0", "Accept" := "*/*"]
  {
    var ps := Cleaned(rows);
    DefaultsUnpadded();
    forall i | 0 <= i < 3
      ensures ps[i] == DefaultHeaders[i]
    {
      assert Entries(rows)[i] == (rows[i].key, rows[i].value);
    }
    assert ps == DefaultHeaders;
    GatherDefaults();
  }

  /** None of the default names and values has surrounding whitespace. */
  lemma DefaultsUnpadded()
    ensures forall i :: 0 <= i < |DefaultHeaders| ==>
      Strip(DefaultHeaders[i].0) == DefaultHeaders[i].0 && Strip(DefaultHeaders[i].1) == DefaultHeaders[i].1
  {
    StripUnchanged("Content-Type");
    StripUnchanged("application/json");
    StripUnchanged("User-Agent");
    StripUnchanged("Rappit/1.0");
    StripUnchanged("Accept");
    StripUnchanged("*/*");
  }

  lemma GatherDefaults()
    ensures Gather(DefaultHeaders) == map["Content-Type" := "application/json", "User-Agent" := "Rappit/1.0", "Accept" := "*/*"]
  {
    var ps := DefaultHeaders;
    assert ps[..2][..1] == ps[..1] && ps[..1][..0] == [];
    assert Gather(ps[..1]) == map["Content-Type" := "application/json"];
    assert ps[..3][..2] == ps[..2];
    assert Gather(ps[..2]) == map["Content-Type" := "application/json", "User-Agent" := "Rappit/1.0"];
    assert ps[..3] == ps;
  }

  class HeadersPanel {
    /** the rows of `headers_list`, from the top */
    var rows: seq<HeaderRow>
    /** the id the next row widget gets */
    var nextId: nat

    /** Every row widget is distinct and was created by this panel. */
    ghost predicate Valid()
      reads this
    {
      DistinctIds(rows) && forall i :: 0 <= i < |rows| ==> rows[i].id < nextId
    }

    /** A new panel holds exactly the three default rows. */
    constructor()
      ensures Valid() && Entries(rows) == DefaultHeaders
    {
      rows := [];
      nextId := 0;
      new;
      AddDefaultHeaders();
    }

    method AddDefaultHeaders()
      requires Valid()
      modifies this
      ensures Valid() && Entries(rows) == Entries(old(rows)) + DefaultHeaders
      ensures rows[..|old(rows)|] == old(rows)
    {
      var defaultHeaders := DefaultHeaders;
      for i := 0 to |defaultHeaders|
        invariant Valid() && Entries(rows) == Entries(old(rows)) + defaultHeaders[..i]
        invariant |rows| == |old(rows)| + i && rows[..|old(rows)|] == old(rows)
      {
        var (key, value) := defaultHeaders[i];
        AddHeaderRow(key, value);
        assert defaultHeaders[..i + 1] == defaultHeaders[..i] + [(key, value)];
      }
    }

    /** One new row with the given texts goes to the end of the list. */
    method AddHeaderRow(key: string, value: string)
      requires Valid()
      modifies this
      ensures Valid() && rows == old(rows) + [HeaderRow(old(nextId), key, value)] && nextId == old(nextId) + 1
      ensures Entries(rows) == Entries(old(rows)) + [(key, value)]
    {
      var row := HeaderRow(nextId, key, value);
      nextId := nextId + 1;
      rows := rows + [row];
    }

    method OnAddHeader()
      requires Valid()
      modifies this
      ensures Valid() && rows == old(rows) + [HeaderRow(old(nextId), "", "")] && nextId == old(nextId) + 1
    {
      AddHeaderRow("", "");
    }

    /** The row `rowId` is removed from the list; every other row stays, in order. */
    method OnDeleteHeader(rowId: nat)
      requires Valid()
      modifies this
      ensures Valid() && rows == RemoveRow(old(rows), rowId) && nextId == old(nextId)
    {
      RemoveRowSpec(rows, rowId);
      RemoveRowKeeps(rows, rowId);
      rows := RemoveRow(rows, rowId);
    }

    /** `get_headers`: the rows are read from the first child on. */
    method GetHeaders() returns (headers: map<string, string>)
      ensures headers == Collect(rows)
    {
      headers := map[];
      var i := 0;
      while i < |rows|
        invariant 0 <= i <= |rows| && headers == Gather(Cleaned(rows[..i]))
      {
        var child := rows[i];
        var key := Strip(child.key);
        var value := Strip(child.value);
        if key != [] && value != [] {
          headers := headers[key := value];
        }
        assert rows[..i + 1][..i] == rows[..i];
        assert Cleaned(rows[..i + 1])[..i] == Cleaned(rows[..i]);
        i := i + 1;
      }
      assert rows[..i] == rows;
    }
  }

  /** Removing a row keeps the other rows' ids distinct and below the bound. */
  lemma {:induction false} RemoveRowKeeps(rows: seq<HeaderRow>, id: nat)
    ensures forall r :: r in RemoveRow(rows, id) ==> r in rows
    ensures DistinctIds(rows) ==> DistinctIds(RemoveRow(rows, id))
    decreases |rows|
  {
    if rows != [] {
      RemoveRowKeeps(rows[1..], id);
      var rest := RemoveRow(rows[1..], id);
      if DistinctIds(rows) && rows[0].id != id {
        forall j | 0 <= j < |rest|
          ensures rows[0].id != rest[j].id
        {
          assert rest[j] in rows[1..];
        }
        assert RemoveRow(rows, id) == [rows[0]] + rest;
      }
    }
  }
}
