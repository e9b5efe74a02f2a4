/** pkg/kernel/indexed_table.go: what becomes of one batch of candidate rows, and
    the choice of rows by a list of indices. */
module IndexedRows {
  import opened Options
  import opened IndexedConfig
  import P = Partitions

  type Row = seq<string>

  /** What a provider call yields: an error, content that is not the one JSON
      object asked for, or its decoded payload. */
  datatype Reply<+T> = CallFailed | Malformed | Parsed(value: T)

  predicate OccursAt(s: string, sub: string, i: int) {
    0 <= i <= |s| - |sub| && s[i..i + |sub|] == sub
  }

  predicate Contains(s: string, sub: string) {
    exists i :: 0 <= i <= |s| - |sub| && OccursAt(s, sub, i)
  }

  predicate HasSuffix(s: string, suffix: string) {
    |suffix| <= |s| && s[|s| - |suffix|..] == suffix
  }

  lemma ContainsIsExact(s: string, sub: string)
    ensures Contains(s, sub) <==> exists a, b :: s == a + sub + b
  {
    if Contains(s, sub) {
      var i :| 0 <= i <= |s| - |sub| && OccursAt(s, sub, i);
      assert s == s[..i] + sub + s[i + |sub|..];
    }
    forall a, b | s == a + sub + b ensures Contains(s, sub) {
      assert OccursAt(s, sub, |a|);
    }
  }

  lemma HasSuffixIsExact(s: string, suffix: string)
    ensures HasSuffix(s, suffix) <==> exists a :: s == a + suffix
  {
    if HasSuffix(s, suffix) {
      assert s == s[..|s| - |suffix|] + suffix;
    }
  }

  predicate MeetsRule(value: string, rule: ColumnRule) {
    && (forall f :: f in rule.forbidden ==> !Contains(value, f))
    && rule.prefix <= value && HasSuffix(value, rule.suffix)
    && (rule.allowed != [] ==> value in rule.allowed)
  }

  predicate RulesInRange(row: Row, rules: seq<ColumnRule>) {
    forall i :: 0 <= i < |rules| ==> 0 <= rules[i].column < |row|
  }

  predicate MeetsRules(row: Row, rules: seq<ColumnRule>)
    requires RulesInRange(row, rules)
  {
    forall i :: 0 <= i < |rules| ==> MeetsRule(row[rules[i].column], rules[i])
  }

  method MatchesColumnRules(row: Row, rules: seq<ColumnRule>) returns (ok: bool)
    requires RulesInRange(row, rules)
    ensures ok <==> MeetsRules(row, rules)
  {
    for i := 0 to |rules|
      invariant forall k :: 0 <= k < i ==> MeetsRule(row[rules[k].column], rules[k])
    {
      var rule, value := rules[i], row[rules[i].column];
      for j := 0 to |rule.forbidden|
        invariant forall k :: 0 <= k < j ==> !Contains(value, rule.forbidden[k])
      {
        if Contains(value, rule.forbidden[j]) {
          return false;
        }
      }
      if !(rule.prefix <= value) || !HasSuffix(value, rule.suffix) {
        return false;
      }
      if |rule.allowed| > 0 {
        var allowed := false;
        for j := 0 to |rule.allowed|
          invariant allowed <==> value in rule.allowed[..j]
        {
          if rule.allowed[j] == value {
            allowed := true;
            break;
          }
        }
        if !allowed {
          return false;
        }
      }
    }
    return true;
  }

  // ----------------------------------------------------------------- one batch

  /** Full width and no blank cell. */
  predicate WellFormed(cfg: IndexedTable, row: Row) {
    |row| == |cfg.columns| && NoBlank(row)
  }

  /** A row the batch keeps; the empty partition stands for "any". */
  predicate Kept(cfg: IndexedTable, partition: string, row: Row)
    requires RulesInRange(row, cfg.rules)
    requires partition != "" ==> 0 <= cfg.batchColumn < |row|
  {
    MeetsRules(row, cfg.rules) && (partition == "" || row[cfg.batchColumn] == partition)
  }

  predicate Usable(cfg: IndexedTable, partition: string) {
    Valid(cfg, 3) && (partition != "" ==> cfg.batchValues != [])
  }

  /** The rows of a reply that a batch contributes, or nothing when some row among
      the first `target` is malformed. */
  function BatchRows(cfg: IndexedTable, partition: string, rows: seq<Row>): Option<seq<Row>>
    requires Usable(cfg, partition)
  {
    if rows == [] then Some([])
    else
      var last := rows[|rows| - 1];
      match BatchRows(cfg, partition, rows[..|rows| - 1])
      case None => None
      case Some(kept) =>
        if !WellFormed(cfg, last) then None
        else if Kept(cfg, partition, last) then Some(kept + [last])
        else Some(kept)
  }

  /** A valid configuration never indexes a well-formed row out of range. */
  lemma RowsInRange(cfg: IndexedTable, partition: string, row: Row)
    requires Usable(cfg, partition) && WellFormed(cfg, row)
    ensures RulesInRange(row, cfg.rules) && (partition != "" ==> 0 <= cfg.batchColumn < |row|)
  {
    assert forall i :: 0 <= i < |cfg.rules| ==> ValidRule(cfg, cfg.rules[i]);
  }

  method ValidateBatch(cfg: IndexedTable, target: nat, partition: string, received: seq<Row>)
    returns (r: Option<seq<Row>>)
    requires Usable(cfg, partition)
    ensures r == BatchRows(cfg, partition, P.Take(received, target))
  {
    var rows := received;
    if |rows| > target {
      rows := rows[..target];
    }
    var valid: seq<Row> := [];
    for i := 0 to |rows|
      invariant BatchRows(cfg, partition, rows[..i]) == Some(valid)
    {
      var row := rows[i];
      BatchAppends(cfg, partition, rows, i);
      if |row| != |cfg.columns| {
        BatchFails(cfg, partition, rows, i + 1);
        return None;
      }
      var filled := Nonempty(row);
      if !filled {
        BatchFails(cfg, partition, rows, i + 1);
        return None;
      }
      RowsInRange(cfg, partition, row);
      var ok := MatchesColumnRules(row, cfg.rules);
      if ok && (partition == "" || row[cfg.batchColumn] == partition) {
        valid := valid + [row];
      }
    }
    assert rows[..|rows|] == rows;
    return Some(valid);
  }

  lemma BatchAppends(cfg: IndexedTable, partition: string, rows: seq<Row>, i: nat)
    requires Usable(cfg, partition) && i < |rows| && BatchRows(cfg, partition, rows[..i]).Some?
    ensures WellFormed(cfg, rows[i]) ==>
        RulesInRange(rows[i], cfg.rules) && (partition != "" ==> 0 <= cfg.batchColumn < |rows[i]|)
    ensures var before, row := BatchRows(cfg, partition, rows[..i]).value, rows[i];
      BatchRows(cfg, partition, rows[..i + 1]) ==
        if !WellFormed(cfg, row) then None
        else if Kept(cfg, partition, row) then Some(before + [row])
        else Some(before)
  {
    var more := rows[..i + 1];
    assert more[..i] == rows[..i] && more[i] == rows[i];
    if WellFormed(cfg, rows[i]) { RowsInRange(cfg, partition, rows[i]); }
  }

  lemma {:induction false} BatchFails(cfg: IndexedTable, partition: string, rows: seq<Row>, n: nat)
    requires Usable(cfg, partition) && n <= |rows| && BatchRows(cfg, partition, rows[..n]) == None
    ensures BatchRows(cfg, partition, rows) == None
    decreases |rows| - n
  {
    if n < |rows| {
      assert rows[..n + 1][..n] == rows[..n];
      BatchFails(cfg, partition, rows, n + 1);
    } else {
      assert rows[..n] == rows;
    }
  }

  /** What is true of every row a batch contributes. */
  predicate Good(cfg: IndexedTable, row: Row)
    requires Valid(cfg, 3)
  {
    WellFormed(cfg, row) && (RowsInRange(cfg, "", row); MeetsRules(row, cfg.rules))
  }

  /** A batch contributes received rows only, verbatim and in order, all of them
      good and of its partition, and drops none that is. */
  lemma {:induction false} BatchRowsSound(cfg: IndexedTable, partition: string, rows: seq<Row>)
    requires Usable(cfg, partition) && BatchRows(cfg, partition, rows).Some?
    ensures forall row :: row in BatchRows(cfg, partition, rows).value <==>
              row in rows && Good(cfg, row) && (partition == "" || row[cfg.batchColumn] == partition)
  {
    if rows != [] {
      var init, last := rows[..|rows| - 1], rows[|rows| - 1];
      BatchRowsSound(cfg, partition, init);
      assert rows == init + [last];
      RowsInRange(cfg, partition, last);
    }
  }

  predicate Wanted(cfg: IndexedTable, partition: string, row: Row)
    requires Usable(cfg, partition)
  {
    Good(cfg, row) && (partition == "" || (RowsInRange(cfg, partition, row); row[cfg.batchColumn] == partition))
  }

  /** These positions, in ascending order, are those of the rows kept. */
  ghost predicate KeptFrom(cfg: IndexedTable, partition: string, rows: seq<Row>, kept: seq<Row>, at: seq<nat>)
    requires Usable(cfg, partition)
  {
    && |at| == |kept| && (forall i, k :: 0 <= i < k < |at| ==> at[i] < at[k])
    && (forall i :: 0 <= i < |at| ==> at[i] < |rows| && kept[i] == rows[at[i]])
    && forall k: nat :: k < |rows| ==> (k in at <==> Wanted(cfg, partition, rows[k]))
  }

  lemma KeptNext(cfg: IndexedTable, partition: string, rows: seq<Row>, last: Row, kept: seq<Row>, at: seq<nat>)
    requires Usable(cfg, partition) && KeptFrom(cfg, partition, rows, kept, at)
    ensures !Wanted(cfg, partition, last) ==> KeptFrom(cfg, partition, rows + [last], kept, at)
    ensures Wanted(cfg, partition, last) ==> KeptFrom(cfg, partition, rows + [last], kept + [last], at + [|rows|])
  {
    var all := rows + [last];
    assert forall k :: 0 <= k < |rows| ==> all[k] == rows[k];
    assert |rows| !in at;
  }

  /** A batch is rejected exactly when a row is too short, too long or has a blank cell. */
  lemma {:induction false} RejectedForAMalformedRow(cfg: IndexedTable, partition: string, rows: seq<Row>)
    requires Usable(cfg, partition)
    ensures BatchRows(cfg, partition, rows).Some? <==> forall i :: 0 <= i < |rows| ==> WellFormed(cfg, rows[i])
  {
    if rows != [] {
      var init, last := rows[..|rows| - 1], rows[|rows| - 1];
      RejectedForAMalformedRow(cfg, partition, init);
      if WellFormed(cfg, last) { RowsInRange(cfg, partition, last); }
      assert forall i :: 0 <= i < |init| ==> init[i] == rows[i];
    }
  }

  lemma KeepsTheWanted(cfg: IndexedTable, partition: string, rows: seq<Row>)
    requires rows != [] && Usable(cfg, partition) && BatchRows(cfg, partition, rows).Some?
    ensures var init, last := rows[..|rows| - 1], rows[|rows| - 1];
      && BatchRows(cfg, partition, init).Some?
      && BatchRows(cfg, partition, rows).value ==
           BatchRows(cfg, partition, init).value + if Wanted(cfg, partition, last) then [last] else []
  {
    RowsInRange(cfg, partition, rows[|rows| - 1]);
  }

  /** One that is not contributes the wanted rows, each as often and where it stood. */
  lemma {:induction false} BatchRowsInPlace(cfg: IndexedTable, partition: string, rows: seq<Row>)
    returns (at: seq<nat>)
    requires Usable(cfg, partition) && BatchRows(cfg, partition, rows).Some?
    ensures KeptFrom(cfg, partition, rows, BatchRows(cfg, partition, rows).value, at)
  {
    at := [];
    if rows != [] {
      var init, last := rows[..|rows| - 1], rows[|rows| - 1];
      KeepsTheWanted(cfg, partition, rows);
      at := BatchRowsInPlace(cfg, partition, init);
      assert rows == init + [last];
      KeptNext(cfg, partition, init, last, BatchRows(cfg, partition, init).value, at);
      at := if Wanted(cfg, partition, last) then at + [|init|] else at;
    }
  }

  // ---------------------------------------------------------------- selection

  predicate ValidSelection(indices: seq<int>, rows: nat, target: int) {
    && |indices| == target && P.Distinct(indices)
    && forall i :: 0 <= i < |indices| ==> 1 <= indices[i] <= rows
  }

  /** Rows by one-based index: accepted exactly when the right number of distinct
      indices in range was given, and then row by row the one asked for. */
  method SelectIndexedRows(reply: Reply<seq<int>>, rows: seq<Row>, target: int) returns (r: Option<seq<Row>>)
    ensures r.Some? <==> reply.Parsed? && ValidSelection(reply.value, |rows|, target)
    ensures r.Some? ==> |r.value| == target
    ensures r.Some? ==> forall i :: 0 <= i < target ==> r.value[i] == rows[reply.value[i] - 1]
  {
    if !reply.Parsed? {
      return None;
    }
    var indices := reply.value;
    if |indices| != target {
      return None;
    }
    var seen: set<int> := {};
    var result: seq<Row> := [];
    for i := 0 to |indices|
      invariant forall x :: x in seen <==> x in indices[..i]
      invariant ValidSelection(indices[..i], |rows|, i)
      invariant |result| == i && forall k :: 0 <= k < i ==> result[k] == rows[indices[k] - 1]
    {
      var index := indices[i];
      assert index in indices[..i] ==> exists k :: 0 <= k < i && indices[k] == index;
      if index < 1 || index > |rows| || index in seen {
        return None;
      }
      seen := seen + {index};
      result := result + [rows[index - 1]];
      assert indices[..i + 1] == indices[..i] + [index];
    }
    assert indices[..|indices|] == indices;
    return Some(result);
  }
}
