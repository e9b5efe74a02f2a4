/** pkg/kernel/indexed_table.go: round-robin interleaving of the partitions, so
    that no prefix of the candidates favours the early ones. */
module IndexedInterleave {
  import opened IndexedConfig
  import opened IndexedRows
  import P = Partitions

  predicate HasColumn(rows: seq<Row>, col: int) {
    forall i :: 0 <= i < |rows| ==> 0 <= col < |rows[i]|
  }

  /** The partition a row belongs to: its cell in one column. */
  function ByColumn(col: int): Row -> string {
    (row: Row) => if 0 <= col < |row| then row[col] else ""
  }

  function Interleaved(rows: seq<Row>, cfg: IndexedTable): seq<Row> {
    if cfg.batchValues == [] then rows else P.Interleaved(rows, ByColumn(cfg.batchColumn), cfg.batchValues)
  }

  function Bucket(buckets: map<string, seq<Row>>, value: string): seq<Row> {
    if value in buckets then buckets[value] else []
  }

  method Partition(rows: seq<Row>, col: int, values: seq<string>)
    returns (buckets: map<string, seq<Row>>, other: seq<Row>)
    requires HasColumn(rows, col)
    ensures forall v :: v in values ==> Bucket(buckets, v) == P.Of(rows, ByColumn(col), v)
    ensures other == P.Others(rows, ByColumn(col), values)
  {
    buckets, other := map[], [];
    for i := 0 to |rows|
      invariant forall v :: v in values ==> Bucket(buckets, v) == P.Of(rows[..i], ByColumn(col), v)
      invariant other == P.Others(rows[..i], ByColumn(col), values)
    {
      var row := rows[i];
      var value := row[col];
      forall v | v in values
        ensures P.Of(rows[..i + 1], ByColumn(col), v) ==
                P.Of(rows[..i], ByColumn(col), v) + if value == v then [row] else []
      {
        P.OfAppends(rows, ByColumn(col), i, v);
      }
      P.OthersAppends(rows, ByColumn(col), values, i);
      if value in values {
        buckets := buckets[value := Bucket(buckets, value) + [row]];
      } else {
        other := other + [row];
      }
    }
    assert rows[..|rows|] == rows;
  }

  /** One pass over the listed partitions: the offset-th row of each. */
  method AppendRound(
      ghost rows: seq<Row>, ghost col: int, values: seq<string>, buckets: map<string, seq<Row>>, offset: nat,
        before: seq<Row>)
    returns (result: seq<Row>, added: bool)
    requires forall v :: v in values ==> Bucket(buckets, v) == P.Of(rows, ByColumn(col), v)
    ensures result == before + P.Round(rows, ByColumn(col), values, offset)
    ensures added <==> P.Round(rows, ByColumn(col), values, offset) != []
    ensures added ==> offset < |rows|
  {
    result, added := before, false;
    for j := 0 to |values|
      invariant result == before + P.Round(rows, ByColumn(col), values[..j], offset)
      invariant added <==> P.Round(rows, ByColumn(col), values[..j], offset) != []
      invariant added ==> offset < |rows|
    {
      P.RoundAppends(rows, ByColumn(col), values, j, offset);
      var value := values[j];
      if offset < |Bucket(buckets, value)| {
        result := result + [Bucket(buckets, value)[offset]];
        added := true;
      }
    }
    assert values[..|values|] == values;
  }

  method InterleaveIndexedPartitions(rows: seq<Row>, cfg: IndexedTable) returns (result: seq<Row>)
    requires cfg.batchValues != [] ==> HasColumn(rows, cfg.batchColumn)
    ensures result == Interleaved(rows, cfg)
  {
    if |cfg.batchValues| == 0 {
      return rows;
    }
    var col, values := cfg.batchColumn, cfg.batchValues;
    var buckets, other := Partition(rows, col, values);
    result := [];
    var offset := 0;
    P.RoundsStep(rows, ByColumn(col), values, 0);
    while true
      invariant offset <= |rows| && result == P.Rounds(rows, ByColumn(col), values, offset)
      decreases |rows| - offset
    {
      var added;
      ghost var before := result;
      P.RoundsStep(rows, ByColumn(col), values, offset);
      result, added := AppendRound(rows, col, values, buckets, offset, result);
      if !added {
        assert result == before;
        P.RoundsEnd(rows, ByColumn(col), values, offset, |rows|);
        break;
      }
      offset := offset + 1;
    }
    result := result + other;
  }

  /** A permutation that keeps the order inside each partition and of the rest,
      puts unlisted partitions last, and in any prefix favours no partition but by
      at most one element those listed first. */
  lemma InterleavingIsFair(rows: seq<Row>, cfg: IndexedTable)
    requires cfg.batchValues != [] && P.Distinct(cfg.batchValues)
    ensures var r, part, values := Interleaved(rows, cfg), ByColumn(cfg.batchColumn), cfg.batchValues;
      && multiset(r) == multiset(rows)
      && (forall v :: v in values ==> P.Of(r, part, v) == P.Of(rows, part, v))
      && P.Others(r, part, values) == P.Others(rows, part, values)
      && (forall i, j :: 0 <= i < j < |r| && part(r[i]) !in values ==> part(r[j]) !in values)
      && (forall n :: 0 <= n <= |r| ==> P.Balanced(rows, part, values, r[..n]) && P.InTurn(rows, part, values, r[..n]))
  {
    var r, part, values := Interleaved(rows, cfg), ByColumn(cfg.batchColumn), cfg.batchValues;
    P.InterleavedIsPermutation(rows, part, values);
    forall v | v in values
      ensures P.Of(r, part, v) == P.Of(rows, part, v)
    {
      P.InterleavedKeeps(rows, part, values, v);
    }
    P.InterleavedRest(rows, part, values);
    forall i, j | 0 <= i < j < |r| && part(r[i]) !in values ensures part(r[j]) !in values {
      P.OthersComeLast(rows, part, values, i, j);
    }
    forall n | 0 <= n <= |r|
      ensures P.Balanced(rows, part, values, r[..n]) && P.InTurn(rows, part, values, r[..n])
    {
      P.PrefixesAreBalanced(rows, part, values, n);
    }
  }

  lemma InterleavedHolds(rows: seq<Row>, cfg: IndexedTable)
    requires P.Distinct(cfg.batchValues)
    ensures multiset(Interleaved(rows, cfg)) == multiset(rows)
    ensures |Interleaved(rows, cfg)| == |rows|
    ensures forall row :: row in Interleaved(rows, cfg) <==> row in rows
  {
    var r := Interleaved(rows, cfg);
    if cfg.batchValues != [] {
      P.InterleavedIsPermutation(rows, ByColumn(cfg.batchColumn), cfg.batchValues);
    }
    assert |multiset(r)| == |multiset(rows)|;
    forall row ensures row in r <==> row in rows {
      assert row in multiset(r) <==> row in multiset(rows);
    }
  }
}
