/**
 * The response parser of the client (eiopaPy/client.py, `_parse_rfr`): a
 * decoded JSON array of curve records becomes a rate table (one column per
 * curve id) and a metadata table (one row per record).
 */
module Parser {
  import opened Wrappers

  /** A JSON scalar the service sends as a metadata value or a curve id. */
  datatype Scalar = Str(text: string) | Num(number: int)

  /** A record's value: a scalar, or a list (the rates of a curve are one). */
  datatype Field<V> = Atom(scalar: Scalar) | Series(values: seq<V>)

  /** One curve record as decoded JSON: field name to value. */
  type Record<V> = map<string, Field<V>>

  const DATA_KEY: string := "data"
  const ID_KEY: string := "id"
  const UNKNOWN_ID: Scalar := Str("unknown")

  /**
   * The rate table: its column keys in dictionary order and the values of
   * each column (row i of a column is the rate at maturity i + 1).
   */
  datatype RateTable<V> = RateTable(columns: seq<Scalar>, series: map<Scalar, seq<V>>) {

    /**
     * Python's `d[key] = values` on an insertion-ordered dict: a new key goes
     * last, an existing key keeps its place and takes the new value.
     */
    function Assign(key: Scalar, values: seq<V>): (t: RateTable<V>)
      ensures key in t.series && t.series[key] == values
    {
      RateTable(if key in series then columns else columns + [key], series[key := values])
    }
  }

  /**
   * Dictionary assignment keeps every other key and its value, and keeps the
   * existing keys in place: a new key is appended, an existing one does not move.
   */
  lemma AssignInOrder<V>(t: RateTable<V>, key: Scalar, values: seq<V>)
    ensures var u := t.Assign(key, values);
      && (forall k :: k in t.series && k != key ==> k in u.series && u.series[k] == t.series[k])
      && (forall k :: k in u.series ==> k in t.series || k == key)
      && |u.columns| == |t.columns| + (if key in t.series then 0 else 1)
      && u.columns[..|t.columns|] == t.columns
      && (key !in t.series ==> u.columns[|t.columns|] == key)
  {
  }

  /**
   * The metadata table: the union of the field names of its rows, and one
   * row per curve; a field a row lacks reads as the missing marker.
   */
  datatype MetadataTable<V> = MetadataTable(fields: set<string>, rows: seq<Record<V>>) {

    /** The cell of row i under `field`: None is the missing marker. */
    function Cell(i: nat, field: string): Option<Field<V>>
      requires i < |rows|
    {
      if field in rows[i] then Some(rows[i][field]) else None
    }
  }

  /** The parsed response: both tables, always together. */
  datatype EiopaRfr<V> = EiopaRfr(data: RateTable<V>, metadata: MetadataTable<V>)

  /**
   * What stops the parse: record `index` has no "data" (a KeyError), or its
   * id is a list, which cannot key a dict (a TypeError).
   */
  datatype ParseError = MissingData(index: nat) | UnhashableId(index: nat)

  /** Every record that has a "data" field holds a list there. */
  predicate DataIsSeries<V>(raw: seq<Record<V>>) {
    forall i :: 0 <= i < |raw| && DATA_KEY in raw[i] ==> raw[i][DATA_KEY].Series?
  }

  /** All curves have the same number of maturities, as a table built from them needs. */
  predicate Rectangular<V>(raw: seq<Record<V>>) {
    && DataIsSeries(raw)
    && forall i, j :: 0 <= i < |raw| && 0 <= j < |raw| && DATA_KEY in raw[i] && DATA_KEY in raw[j] ==>
         |raw[i][DATA_KEY].values| == |raw[j][DATA_KEY].values|
  }

  ghost predicate Distinct<T>(s: seq<T>) {
    forall p, q :: 0 <= p < q < |s| ==> s[p] != s[q]
  }

  /** The column key of a record: its id, or "unknown" when it has none. */
  function CurveId<V>(rec: Record<V>): (id: Field<V>)
    ensures ID_KEY in rec ==> id == rec[ID_KEY]
    ensures ID_KEY !in rec ==> id == Atom(UNKNOWN_ID)
  {
    if ID_KEY in rec then rec[ID_KEY] else Atom(UNKNOWN_ID)
  }

  /** A record the rate table can take: it has its "data" and a scalar key. */
  predicate Usable<V>(rec: Record<V>) {
    DATA_KEY in rec && CurveId(rec).Atom?
  }

  // ---------------------------------------------------------------------------
  // Rate table
  // ---------------------------------------------------------------------------

  /**
   * The rate table built from the records in order, each assigning its data
   * to its key; the first record that cannot be used stops it.
   */
  function CurvesOf<V>(raw: seq<Record<V>>): (r: Result<RateTable<V>, ParseError>)
    requires DataIsSeries(raw)
    ensures r.Success? ==> Distinct(r.value.columns)
    ensures r.Success? ==> forall k :: k in r.value.series <==> k in r.value.columns
    decreases |raw|
  {
    if raw == [] then Success(RateTable([], map[]))
    else
      var n := |raw| - 1;
      assert DataIsSeries(raw[..n]) by {
        assert forall i :: 0 <= i < n ==> raw[..n][i] == raw[i];
      }
      match CurvesOf(raw[..n])
      case Failure(e) => Failure(e)
      case Success(t) =>
        if DATA_KEY !in raw[n] then Failure(MissingData(n))
        else if !CurveId(raw[n]).Atom? then Failure(UnhashableId(n))
        else Success(t.Assign(CurveId(raw[n]).scalar, raw[n][DATA_KEY].values))
  }

  predicate AllUsable<V>(raw: seq<Record<V>>) {
    forall i :: 0 <= i < |raw| ==> Usable(raw[i])
  }

  /** The column keys of usable records, in record order. */
  function Ids<V>(raw: seq<Record<V>>): seq<Scalar>
    requires AllUsable(raw)
  {
    seq(|raw|, i requires 0 <= i < |raw| && Usable(raw[i]) => CurveId(raw[i]).scalar)
  }

  lemma IdsSnoc<V>(raw: seq<Record<V>>)
    requires raw != [] && AllUsable(raw[..|raw| - 1]) && Usable(raw[|raw| - 1])
    ensures AllUsable(raw)
    ensures Ids(raw) == Ids(raw[..|raw| - 1]) + [CurveId(raw[|raw| - 1]).scalar]
  {
    var n := |raw| - 1;
    assert forall i :: 0 <= i < n ==> raw[..n][i] == raw[i];
    assert AllUsable(raw);
    assert forall i :: 0 <= i < n ==> Ids(raw)[i] == Ids(raw[..n])[i];
  }

  /** `s` without any occurrence of `x`, order kept. */
  function Without<T(==)>(s: seq<T>, x: T): (r: seq<T>)
    ensures |r| <= |s|
  {
    if s == [] then [] else (if s[0] == x then [] else [s[0]]) + Without(s[1..], x)
  }

  /** The distinct elements of `s`, each where it first appears. */
  function Dedup<T(==)>(s: seq<T>): seq<T>
    decreases |s|
  {
    if s == [] then [] else [s[0]] + Dedup(Without(s[1..], s[0]))
  }

  lemma {:induction false} WithoutMember<T>(s: seq<T>, x: T, y: T)
    ensures y in Without(s, x) <==> y in s && y != x
  {
    if s != [] {
      WithoutMember(s[1..], x, y);
      assert s == [s[0]] + s[1..];
    }
  }

  /** Deduplicating keeps every element and adds none. */
  lemma {:induction false} DedupMember<T>(s: seq<T>, y: T)
    ensures y in Dedup(s) <==> y in s
    decreases |s|
  {
    if s != [] {
      DedupMember(Without(s[1..], s[0]), y);
      WithoutMember(s[1..], s[0], y);
      assert s == [s[0]] + s[1..];
    }
  }

  /** No key appears twice after deduplication. */
  lemma {:induction false} DedupDistinct<T>(s: seq<T>)
    ensures Distinct(Dedup(s))
    decreases |s|
  {
    if s != [] {
      var rest := Without(s[1..], s[0]);
      DedupDistinct(rest);
      DedupMember(rest, s[0]);
      WithoutMember(s[1..], s[0], s[0]);
      var d := Dedup(s);
      assert d == [s[0]] + Dedup(rest);
      assert forall q :: 0 < q < |d| ==> d[q] == Dedup(rest)[q - 1];
    }
  }

  lemma {:induction false} WithoutAbsent<T>(s: seq<T>, x: T)
    requires x !in s
    ensures Without(s, x) == s
  {
    if s != [] {
      WithoutAbsent(s[1..], x);
      assert s == [s[0]] + s[1..];
    }
  }

  /** Deduplicating keys that are already distinct changes nothing. */
  lemma {:induction false} DedupOfDistinct<T>(s: seq<T>)
    requires Distinct(s)
    ensures Dedup(s) == s
    decreases |s|
  {
    if s != [] {
      assert s[0] !in s[1..] by {
        assert forall q :: 0 <= q < |s| - 1 ==> s[1..][q] == s[q + 1];
      }
      WithoutAbsent(s[1..], s[0]);
      assert Distinct(s[1..]) by {
        assert forall q :: 0 <= q < |s| - 1 ==> s[1..][q] == s[q + 1];
      }
      DedupOfDistinct(s[1..]);
      assert s == [s[0]] + s[1..];
    }
  }

  lemma {:induction false} WithoutSnoc<T>(s: seq<T>, y: T, x: T)
    ensures Without(s + [y], x) == Without(s, x) + (if y == x then [] else [y])
    decreases |s|
  {
    if s == [] {
      assert [y][1..] == [];
    } else {
      var head := if s[0] == x then [] else [s[0]];
      var tail := s[1..];
      assert (s + [y])[0] == s[0] && (s + [y])[1..] == tail + [y];
      assert Without(s + [y], x) == head + Without(tail + [y], x);
      WithoutSnoc(tail, y, x);
      assert Without(s, x) == head + Without(tail, x);
    }
  }

  /** One unfolding of Dedup on a sequence with one more element at its end. */
  lemma DedupSnocUnfold<T>(s: seq<T>, x: T)
    requires s != []
    ensures var rest := Without(s[1..], s[0]);
      && Dedup(s) == [s[0]] + Dedup(rest)
      && Dedup(s + [x]) == [s[0]] + Dedup(rest + (if x == s[0] then [] else [x]))
      && (x in s <==> x == s[0] || x in rest)
  {
    var head, tail := s[0], s[1..];
    DedupHead(s + [x], tail + [x]);
    WithoutSnoc(tail, x, head);
    WithoutMember(tail, head, x);
    assert s == [head] + tail;
  }

  lemma DedupHead<T>(s: seq<T>, tail: seq<T>)
    requires s != [] && s[1..] == tail
    ensures Dedup(s) == [s[0]] + Dedup(Without(tail, s[0]))
  {
  }

  /** Appending a key: a new one goes last, a repeated one changes nothing. */
  lemma {:induction false} DedupSnoc<T>(s: seq<T>, x: T)
    ensures Dedup(s + [x]) == if x in s then Dedup(s) else Dedup(s) + [x]
    decreases |s|
  {
    if s == [] {
      assert Without([x][1..], x) == [];
    } else {
      var rest := Without(s[1..], s[0]);
      DedupSnocUnfold(s, x);
      if x == s[0] {
        assert rest + [] == rest;
      } else {
        DedupSnoc(rest, x);
        assert [s[0]] + (Dedup(rest) + [x]) == ([s[0]] + Dedup(rest)) + [x];
      }
    }
  }

  /** Once a prefix of the records fails, the whole parse fails the same way. */
  lemma {:induction false} CurvesFailureSticks<V>(raw: seq<Record<V>>, n: nat)
    requires DataIsSeries(raw) && n <= |raw|
    requires DataIsSeries(raw[..n]) && CurvesOf(raw[..n]).Failure?
    ensures CurvesOf(raw) == CurvesOf(raw[..n])
    decreases |raw|
  {
    if n < |raw| {
      var m := |raw| - 1;
      assert raw[..m][..n] == raw[..n];
      assert DataIsSeries(raw[..m]) by {
        assert forall i :: 0 <= i < m ==> raw[..m][i] == raw[i];
      }
      CurvesFailureSticks(raw[..m], n);
    } else {
      assert raw[..n] == raw;
    }
  }

  /**
   * The parse succeeds exactly when every record is usable; otherwise it
   * reports the first record that is not, and why.
   */
  lemma {:induction false} CurvesOutcome<V>(raw: seq<Record<V>>)
    requires DataIsSeries(raw)
    ensures CurvesOf(raw).Success? <==> AllUsable(raw)
    ensures CurvesOf(raw).Failure? ==>
      var e := CurvesOf(raw).error;
      && e.index < |raw|
      && (forall j :: 0 <= j < e.index ==> Usable(raw[j]))
      && (e.MissingData? <==> DATA_KEY !in raw[e.index])
      && !Usable(raw[e.index])
    decreases |raw|
  {
    if raw != [] {
      var n := |raw| - 1;
      var prefix := raw[..n];
      CurvesPrefixStep(raw, n);
      assert raw[..n + 1] == raw;
      CurvesOutcome(prefix);
      assert forall i :: 0 <= i < n ==> prefix[i] == raw[i];
      if CurvesOf(prefix).Success? {
        assert AllUsable(prefix);
        if Usable(raw[n]) {
          assert AllUsable(raw);
        } else {
          assert CurvesOf(raw).error.index == n;
        }
      } else {
        assert CurvesOf(raw) == CurvesOf(prefix);
      }
    }
  }

  /** One step of a successful parse: the prefix succeeded and the last record was assigned. */
  lemma CurvesStep<V>(raw: seq<Record<V>>)
    requires raw != [] && DataIsSeries(raw) && CurvesOf(raw).Success?
    ensures DataIsSeries(raw[..|raw| - 1]) && CurvesOf(raw[..|raw| - 1]).Success?
    ensures Usable(raw[|raw| - 1])
    ensures var last := raw[|raw| - 1];
      CurvesOf(raw).value == CurvesOf(raw[..|raw| - 1]).value.Assign(CurveId(last).scalar, last[DATA_KEY].values)
  {
    var n := |raw| - 1;
    assert DataIsSeries(raw[..n]) by {
      assert forall i :: 0 <= i < n ==> raw[..n][i] == raw[i];
    }
  }

  /** The columns are the distinct ids in the order they first appear. */
  lemma {:induction false} ColumnsFirstAppearance<V>(raw: seq<Record<V>>)
    requires DataIsSeries(raw) && CurvesOf(raw).Success?
    ensures AllUsable(raw)
    ensures CurvesOf(raw).value.columns == Dedup(Ids(raw))
    decreases |raw|
  {
    if raw != [] {
      var n := |raw| - 1;
      CurvesStep(raw);
      var prefix := raw[..n];
      ColumnsFirstAppearance(prefix);
      IdsSnoc(raw);
      var t := CurvesOf(prefix).value;
      var pids := Ids(prefix);
      var key := CurveId(raw[n]).scalar;
      DedupSnoc(pids, key);
      DedupMember(pids, key);
      assert key in t.series <==> key in t.columns;
    }
  }

  /**
   * Duplicate ids: the column of a key holds the data of the LAST record
   * carrying that key.
   */
  lemma {:induction false} LastRecordWins<V>(raw: seq<Record<V>>, i: nat)
    requires DataIsSeries(raw) && CurvesOf(raw).Success?
    requires i < |raw|
    requires forall j :: i < j < |raw| ==> CurveId(raw[j]) != CurveId(raw[i])
    ensures Usable(raw[i])
    ensures CurveId(raw[i]).scalar in CurvesOf(raw).value.series
    ensures CurvesOf(raw).value.series[CurveId(raw[i]).scalar] == raw[i][DATA_KEY].values
    decreases |raw|
  {
    CurvesStep(raw);
    var n := |raw| - 1;
    var prefix := raw[..n];
    if i < n {
      assert forall j :: i < j < n ==> prefix[j] == raw[j];
      LastRecordWins(prefix, i);
      assert prefix[i] == raw[i];
      assert CurveId(raw[n]).scalar != CurveId(raw[i]).scalar;
    }
  }

  /**
   * With distinct ids every record gets its own column, in record order,
   * holding exactly its data: as many columns as records.
   */
  lemma DistinctIdsAlign<V>(raw: seq<Record<V>>)
    requires DataIsSeries(raw) && AllUsable(raw) && Distinct(Ids(raw))
    ensures CurvesOf(raw).Success?
    ensures CurvesOf(raw).value.columns == Ids(raw)
    ensures |CurvesOf(raw).value.columns| == |raw|
    ensures forall i :: 0 <= i < |raw| ==> CurvesOf(raw).value.series[Ids(raw)[i]] == raw[i][DATA_KEY].values
  {
    CurvesOutcome(raw);
    ColumnsFirstAppearance(raw);
    var ids := Ids(raw);
    DedupOfDistinct(ids);
    forall i | 0 <= i < |raw|
      ensures CurvesOf(raw).value.series[ids[i]] == raw[i][DATA_KEY].values
    {
      DistinctFrom(raw, i);
      LastRecordWins(raw, i);
    }
  }

  lemma DistinctFrom<V>(raw: seq<Record<V>>, i: nat)
    requires AllUsable(raw) && Distinct(Ids(raw)) && i < |raw|
    ensures forall j :: i < j < |raw| ==> CurveId(raw[j]) != CurveId(raw[i])
  {
    var ids := Ids(raw);
    forall j | i < j < |raw|
      ensures CurveId(raw[j]) != CurveId(raw[i])
    {
      assert ids[i] != ids[j];
      assert Usable(raw[i]) && Usable(raw[j]);
    }
  }

  // ---------------------------------------------------------------------------
  // Metadata table
  // ---------------------------------------------------------------------------

  /** A record's metadata row: every field but "data". */
  function MetaRow<V>(rec: Record<V>): (row: Record<V>)
    ensures DATA_KEY !in row
    ensures forall f :: f in row <==> f in rec && f != DATA_KEY
    ensures forall f :: f in row ==> row[f] == rec[f]
  {
    rec - {DATA_KEY}
  }

  /** The union of the field names of the rows. */
  function FieldUnion<V>(rows: seq<Record<V>>): (fields: set<string>)
    ensures forall f :: f in fields <==> exists i :: 0 <= i < |rows| && f in rows[i]
    decreases |rows|
  {
    if rows == [] then {}
    else
      var n := |rows| - 1;
      assert forall i :: 0 <= i < n ==> rows[..n][i] == rows[i];
      FieldUnion(rows[..n]) + rows[n].Keys
  }

  /** A table built from a list of rows: its columns are the union of their fields. */
  function MetadataFrame<V>(rows: seq<Record<V>>): MetadataTable<V> {
    MetadataTable(FieldUnion(rows), rows)
  }

  /** The full parse, stated as a function of the records. */
  function Parse<V>(raw: seq<Record<V>>): Result<EiopaRfr<V>, ParseError>
    requires DataIsSeries(raw)
  {
    match CurvesOf(raw)
    case Failure(e) => Failure(e)
    case Success(t) => Success(EiopaRfr(t, MetadataFrame(seq(|raw|, i requires 0 <= i < |raw| => MetaRow(raw[i])))))
  }

  /**
   * One metadata row per record in record order, each the record without
   * "data"; the columns are the union of the remaining fields, and a record
   * lacking a field shows the missing marker there.
   */
  lemma MetadataShape<V>(raw: seq<Record<V>>)
    requires DataIsSeries(raw) && Parse(raw).Success?
    ensures var m := Parse(raw).value.metadata;
      && |m.rows| == |raw|
      && (forall i :: 0 <= i < |raw| ==> m.rows[i] == raw[i] - {DATA_KEY})
      && DATA_KEY !in m.fields
      && (forall f :: f in m.fields <==> f != DATA_KEY && exists i :: 0 <= i < |raw| && f in raw[i])
      && (forall i, f :: 0 <= i < |raw| && f in m.fields ==>
            (m.Cell(i, f) == None <==> f !in raw[i]) && (f in raw[i] ==> m.Cell(i, f) == Some(raw[i][f])))
  {
    var m := Parse(raw).value.metadata;
    assert forall i :: 0 <= i < |raw| ==> m.rows[i] == MetaRow(raw[i]);
  }

  /**
   * The two tables describe the same curves in the same order: with distinct
   * ids, metadata row i carries the id (or lacks it, and the key is
   * "unknown") of rate column i.
   */
  lemma RowsMatchColumns<V>(raw: seq<Record<V>>)
    requires DataIsSeries(raw) && AllUsable(raw) && Distinct(Ids(raw))
    ensures Parse(raw).Success?
    ensures var rfr := Parse(raw).value;
      && |rfr.data.columns| == |rfr.metadata.rows| == |raw|
      && forall i :: 0 <= i < |raw| ==>
           rfr.data.columns[i] == (if ID_KEY in rfr.metadata.rows[i] then rfr.metadata.rows[i][ID_KEY].scalar else UNKNOWN_ID)
  {
    DistinctIdsAlign(raw);
    var rfr := Parse(raw).value;
    forall i | 0 <= i < |raw|
      ensures rfr.data.columns[i] == (if ID_KEY in rfr.metadata.rows[i] then rfr.metadata.rows[i][ID_KEY].scalar else UNKNOWN_ID)
    {
      assert rfr.metadata.rows[i] == MetaRow(raw[i]);
      assert Usable(raw[i]);
    }
  }

  /** A curve record with an id, one string metadata field and its rates. */
  function CurveRecord<V>(id: string, field: string, value: string, data: seq<V>): Record<V> {
    map[ID_KEY := Atom(Str(id)), field := Atom(Str(value)), DATA_KEY := Series(data)]
  }

  /**
   * Two curves A and B with differently shaped metadata: two rate columns A
   * then B holding their data, two metadata rows, the union of the fields,
   * and the missing marker where a curve lacks a field.
   */
  lemma TwoCurvesExample<V>(a: seq<V>, b: seq<V>)
    ensures
      var raw := [CurveRecord("A", "type", "spot", a), CurveRecord("B", "region", "FR", b)];
      && DataIsSeries(raw)
      && Parse(raw).Success?
      && Parse(raw).value.data.columns == [Str("A"), Str("B")]
      && Parse(raw).value.data.series == map[Str("A") := a, Str("B") := b]
      && |Parse(raw).value.metadata.rows| == 2
      && Parse(raw).value.metadata.fields == {ID_KEY, "type", "region"}
      && Parse(raw).value.metadata.Cell(0, "region") == None
      && Parse(raw).value.metadata.Cell(1, "type") == None
      && Parse(raw).value.metadata.Cell(1, "region") == Some(Atom(Str("FR")))
  {
    var recA, recB := CurveRecord("A", "type", "spot", a), CurveRecord("B", "region", "FR", b);
    var raw := [recA, recB];
    ExampleCurves(a, b);
    ExampleMetadata(a, b);
  }

  /** One more usable record extends a successful table by one assignment. */
  lemma CurvesSnoc<V>(raw: seq<Record<V>>, rec: Record<V>)
    requires Usable(rec) && rec[DATA_KEY].Series?
    requires DataIsSeries(raw) && CurvesOf(raw).Success?
    ensures CurvesOf(raw + [rec]) == Success(CurvesOf(raw).value.Assign(CurveId(rec).scalar, rec[DATA_KEY].values))
  {
    var full := raw + [rec];
    assert full[..|raw|] == raw;
    assert DataIsSeries(full) by {
      assert forall i :: 0 <= i < |raw| ==> full[i] == raw[i];
    }
  }

  lemma CurveRecordShape<V>(id: string, field: string, value: string, data: seq<V>)
    requires field != ID_KEY && field != DATA_KEY
    ensures var rec := CurveRecord(id, field, value, data);
      && Usable(rec) && CurveId(rec) == Atom(Str(id)) && rec[DATA_KEY] == Series(data)
  {
  }

  lemma ExampleCurves<V>(a: seq<V>, b: seq<V>)
    ensures var raw := [CurveRecord("A", "type", "spot", a), CurveRecord("B", "region", "FR", b)];
      && DataIsSeries(raw)
      && CurvesOf(raw) == Success(RateTable([Str("A"), Str("B")], map[Str("A") := a, Str("B") := b]))
  {
    CurveRecordShape("A", "type", "spot", a);
    CurveRecordShape("B", "region", "FR", b);
    CurvesPair(CurveRecord("A", "type", "spot", a), CurveRecord("B", "region", "FR", b));
  }

  /** Two usable records with different ids give a two-column table, in record order. */
  lemma CurvesPair<V>(first: Record<V>, second: Record<V>)
    requires Usable(first) && first[DATA_KEY].Series?
    requires Usable(second) && second[DATA_KEY].Series?
    requires CurveId(first) != CurveId(second)
    ensures DataIsSeries([first, second])
    ensures var k1, k2 := CurveId(first).scalar, CurveId(second).scalar;
      CurvesOf([first, second])
      == Success(RateTable([k1, k2], map[k1 := first[DATA_KEY].values, k2 := second[DATA_KEY].values]))
  {
    var k1, k2 := CurveId(first).scalar, CurveId(second).scalar;
    CurvesSingle(first);
    CurvesSnoc([first], second);
    assert [first] + [second] == [first, second];
    var one := RateTable([k1], map[k1 := first[DATA_KEY].values]);
    assert k2 !in one.series;
    assert one.Assign(k2, second[DATA_KEY].values)
        == RateTable([k1, k2], map[k1 := first[DATA_KEY].values, k2 := second[DATA_KEY].values]);
  }

  /** A single usable record gives a one-column table. */
  lemma CurvesSingle<V>(rec: Record<V>)
    requires Usable(rec) && rec[DATA_KEY].Series?
    ensures DataIsSeries([rec])
    ensures CurvesOf([rec]) == Success(RateTable([CurveId(rec).scalar], map[CurveId(rec).scalar := rec[DATA_KEY].values]))
  {
    var none: seq<Record<V>> := [];
    var empty: RateTable<V> := RateTable([], map[]);
    assert CurvesOf(none) == Success(empty);
    CurvesSnoc(none, rec);
    assert none + [rec] == [rec];
    var k := CurveId(rec).scalar;
    assert empty.Assign(k, rec[DATA_KEY].values) == RateTable([k], map[k := rec[DATA_KEY].values]);
  }

  lemma ExampleMetadata<V>(a: seq<V>, b: seq<V>)
    ensures var raw := [CurveRecord("A", "type", "spot", a), CurveRecord("B", "region", "FR", b)];
      var rows := seq(|raw|, i requires 0 <= i < |raw| => MetaRow(raw[i]));
      && rows == [map[ID_KEY := Atom(Str("A")), "type" := Atom(Str("spot"))],
                  map[ID_KEY := Atom(Str("B")), "region" := Atom(Str("FR"))]]
      && FieldUnion(rows) == {ID_KEY, "type", "region"}
  {
    var raw := [CurveRecord("A", "type", "spot", a), CurveRecord("B", "region", "FR", b)];
    var rows := seq(|raw|, i requires 0 <= i < |raw| => MetaRow(raw[i]));
    var rowA: Record<V> := map[ID_KEY := Atom(Str("A")), "type" := Atom(Str("spot"))];
    var rowB: Record<V> := map[ID_KEY := Atom(Str("B")), "region" := Atom(Str("FR"))];
    MetaRowOfCurve("A", "type", "spot", a);
    MetaRowOfCurve("B", "region", "FR", b);
    assert rows == [rowA, rowB];
    FieldUnionPair(rowA, rowB);
    assert rowA.Keys == {ID_KEY, "type"} && rowB.Keys == {ID_KEY, "region"};
  }

  /** The metadata row of a curve record keeps its id and its one field. */
  lemma MetaRowOfCurve<V>(id: string, field: string, value: string, data: seq<V>)
    requires field != ID_KEY && field != DATA_KEY
    ensures MetaRow(CurveRecord(id, field, value, data)) == map[ID_KEY := Atom(Str(id)), field := Atom(Str(value))]
  {
    var row := MetaRow(CurveRecord(id, field, value, data));
    assert row.Keys == {ID_KEY, field};
  }

  /** The fields of two rows are the union of their keys. */
  lemma FieldUnionPair<V>(first: Record<V>, second: Record<V>)
    ensures FieldUnion([first, second]) == first.Keys + second.Keys
  {
    assert [first, second][..1] == [first];
    assert [first][..0] == [];
  }

  /** The table of the first i + 1 records, from the table of the first i. */
  lemma CurvesPrefixStep<V>(raw: seq<Record<V>>, i: nat)
    requires i < |raw| && DataIsSeries(raw)
    ensures DataIsSeries(raw[..i]) && DataIsSeries(raw[..i + 1])
    ensures CurvesOf(raw[..i + 1]) ==
      match CurvesOf(raw[..i])
      case Failure(e) => Failure(e)
      case Success(t) =>
        if DATA_KEY !in raw[i] then Failure(MissingData(i))
        else if !CurveId(raw[i]).Atom? then Failure(UnhashableId(i))
        else Success(t.Assign(CurveId(raw[i]).scalar, raw[i][DATA_KEY].values))
  {
    var longer := raw[..i + 1];
    assert longer[..i] == raw[..i] && longer[i] == raw[i];
    assert DataIsSeries(longer) by {
      assert forall k :: 0 <= k <= i ==> longer[k] == raw[k];
    }
    assert DataIsSeries(raw[..i]) by {
      assert forall k :: 0 <= k < i ==> raw[..i][k] == raw[k];
    }
  }

  /**
   * Parses the decoded response: the metadata rows, then the rate columns,
   * each record in turn, the first unusable record ending the parse.
   */
  method ParseRfr<V>(raw: seq<Record<V>>) returns (r: Result<EiopaRfr<V>, ParseError>)
    requires Rectangular(raw)
    ensures raw == [] ==> r == Success(EiopaRfr(RateTable([], map[]), MetadataTable({}, [])))
    ensures r == Parse(raw)
  {
    if raw == [] {
      return Success(EiopaRfr(RateTable([], map[]), MetadataTable({}, [])));
    }

    var metadataRows: seq<Record<V>> := [];
    for i := 0 to |raw|
      invariant |metadataRows| == i
      invariant forall j :: 0 <= j < i ==> metadataRows[j] == MetaRow(raw[j])
    {
      var meta := MetaRow(raw[i]);
      metadataRows := metadataRows + [meta];
    }
    assert metadataRows == seq(|raw|, i requires 0 <= i < |raw| => MetaRow(raw[i]));
    var metadata := MetadataFrame(metadataRows);

    var dataDict := RateTable([], map[]);
    for i := 0 to |raw|
      invariant DataIsSeries(raw[..i])
      invariant CurvesOf(raw[..i]) == Success(dataDict)
    {
      CurvesPrefixStep(raw, i);
      var item := raw[i];
      var curveId := CurveId(item);
      if DATA_KEY !in item {
        CurvesFailureSticks(raw, i + 1);
        return Failure(MissingData(i));
      }
      if !curveId.Atom? {
        CurvesFailureSticks(raw, i + 1);
        return Failure(UnhashableId(i));
      }
      dataDict := dataDict.Assign(curveId.scalar, item[DATA_KEY].values);
    }
    assert raw[..|raw|] == raw;
    r := Success(EiopaRfr(dataDict, metadata));
  }
}
