/** pkg/soyapack/manifest.go: the indexed-table configuration and its validator.
    A string is a sequence of code points. */
module IndexedConfig {
  import P = Partitions
  import Texts

  datatype ColumnRule = ColumnRule(
    column: int, allowed: seq<string>, forbidden: seq<string>, prefix: string, suffix: string)

  datatype IndexedTable = IndexedTable(
    targetRows: int, candidateRows: int, columns: seq<string>, sheetName: string,
    maxRepairs: int, timeoutSeconds: int, batchSize: int, maxConcurrency: int,
    rules: seq<ColumnRule>, batchColumn: int, batchValues: seq<string>, minPerPartition: int)

  /** `strings.TrimSpace(s) == ""`. */
  predicate Blank(s: string) {
    forall c :: c in s ==> Texts.IsSpace(c)
  }

  lemma BlankIsExact(s: string)
    ensures Blank(s) <==> Texts.Trim(s) == ""
  {
    var before, behind := Texts.TrimIsExact(s);
    if Texts.Trim(s) != "" {
      var c := Texts.Trim(s)[0];
      assert s[|before|] == c;
    } else {
      assert s == before + behind;
    }
  }

  predicate NoBlank(s: seq<string>) {
    forall i :: 0 <= i < |s| ==> !Blank(s[i])
  }

  function Ceil(n: int, d: int): int
    requires d > 0
  {
    (n + d - 1) / d
  }

  predicate ValidSheetName(s: string) {
    && !Blank(s) && |s| <= 31
    && (forall c :: c in s ==> c !in "[]:*?/\\")
    && s[0] != '\'' && s[|s| - 1] != '\''
  }

  predicate ValidRule(c: IndexedTable, r: ColumnRule) {
    && 0 <= r.column < |c.columns|
    && !(r.allowed == [] && r.forbidden == [] && r.prefix == "" && r.suffix == "")
    && NoBlank(r.allowed) && NoBlank(r.forbidden)
  }

  predicate ValidRules(c: IndexedTable) {
    && (forall i :: 0 <= i < |c.rules| ==> ValidRule(c, c.rules[i]))
    && (forall i, j :: 0 <= i < j < |c.rules| ==> c.rules[i].column != c.rules[j].column)
  }

  predicate ValidBatching(c: IndexedTable) {
    && (c.batchSize != 0 || c.maxConcurrency != 0 ==>
          && 1 <= c.batchSize <= c.candidateRows && 1 <= c.maxConcurrency <= 8
          && Ceil(c.candidateRows, c.batchSize) <= 100)
    && (c.batchValues != [] ==>
          && c.batchSize >= 1 && 0 <= c.batchColumn < |c.columns|
          && |c.batchValues| == Ceil(c.candidateRows, c.batchSize)
          && NoBlank(c.batchValues) && P.Distinct(c.batchValues))
    && 0 <= c.minPerPartition
    && (c.minPerPartition > 0 ==> c.batchValues != [] && c.minPerPartition <= c.targetRows / |c.batchValues|)
  }

  /** What the validator promises of a configuration it accepts. */
  predicate Valid(c: IndexedTable, steps: int) {
    && steps == 3
    && 1 <= c.targetRows <= c.candidateRows <= 10000
    && 0 <= c.maxRepairs <= 3 && 1 <= c.timeoutSeconds <= 3600
    && ValidBatching(c)
    && 1 <= |c.columns| <= 100 && NoBlank(c.columns) && P.Distinct(c.columns)
    && ValidSheetName(c.sheetName)
    && ValidRules(c)
  }

  /** The validator's own loop over a list that must be nonempty text, no value twice. */
  method NonemptyUnique(values: seq<string>) returns (ok: bool)
    ensures ok <==> NoBlank(values) && P.Distinct(values)
  {
    var seen: set<string> := {};
    for i := 0 to |values|
      invariant forall v :: v in seen <==> v in values[..i]
      invariant NoBlank(values[..i]) && P.Distinct(values[..i])
    {
      assert values[i] in values[..i] ==> exists j :: 0 <= j < i && values[j] == values[i];
      if Blank(values[i]) || values[i] in seen {
        return false;
      }
      seen := seen + {values[i]};
      assert values[..i + 1] == values[..i] + [values[i]];
    }
    assert values[..|values|] == values;
    return true;
  }

  method Nonempty(values: seq<string>) returns (ok: bool)
    ensures ok <==> NoBlank(values)
  {
    for i := 0 to |values|
      invariant NoBlank(values[..i])
    {
      if Blank(values[i]) {
        return false;
      }
      assert values[..i + 1] == values[..i] + [values[i]];
    }
    assert values[..|values|] == values;
    return true;
  }

  method CheckRules(c: IndexedTable) returns (ok: bool)
    ensures ok <==> ValidRules(c)
  {
    var ruleColumns: set<int> := {};
    for i := 0 to |c.rules|
      invariant forall k :: k in ruleColumns <==> exists j :: 0 <= j < i && c.rules[j].column == k
      invariant forall j :: 0 <= j < i ==> ValidRule(c, c.rules[j])
      invariant forall j, k :: 0 <= j < k < i ==> c.rules[j].column != c.rules[k].column
    {
      var rule := c.rules[i];
      if rule.column < 0 || rule.column >= |c.columns| || rule.column in ruleColumns {
        return false;
      }
      if |rule.allowed| == 0 && |rule.forbidden| == 0 && rule.prefix == "" && rule.suffix == "" {
        return false;
      }
      var a := Nonempty(rule.allowed);
      if !a {
        return false;
      }
      var f := Nonempty(rule.forbidden);
      if !f {
        return false;
      }
      ruleColumns := ruleColumns + {rule.column};
    }
    return true;
  }

  method CheckBatching(c: IndexedTable) returns (ok: bool)
    requires 1 <= c.targetRows <= c.candidateRows
    ensures ok <==> ValidBatching(c)
  {
    if c.batchSize != 0 || c.maxConcurrency != 0 {
      if c.batchSize < 1 || c.batchSize > c.candidateRows || c.maxConcurrency < 1 || c.maxConcurrency > 8 {
        return false;
      }
      if (c.candidateRows + c.batchSize - 1) / c.batchSize > 100 {
        return false;
      }
    }
    if |c.batchValues| > 0 {
      if c.batchSize < 1 || c.batchColumn < 0 || c.batchColumn >= |c.columns|
         || |c.batchValues| != (c.candidateRows + c.batchSize - 1) / c.batchSize {
        return false;
      }
      var unique := NonemptyUnique(c.batchValues);
      if !unique {
        return false;
      }
    }
    if c.minPerPartition < 0
       || (c.minPerPartition > 0 && (|c.batchValues| == 0 || c.minPerPartition > c.targetRows / |c.batchValues|)) {
      return false;
    }
    return true;
  }

  method Validate(c: IndexedTable, steps: int) returns (ok: bool)
    ensures ok <==> Valid(c, steps)
  {
    if steps != 3 {
      return false;
    }
    if c.targetRows < 1 || c.candidateRows < c.targetRows || c.candidateRows > 10000 {
      return false;
    }
    if c.maxRepairs < 0 || c.maxRepairs > 3 || c.timeoutSeconds < 1 || c.timeoutSeconds > 3600 {
      return false;
    }
    var batching := CheckBatching(c);
    if !batching {
      return false;
    }
    if |c.columns| == 0 || |c.columns| > 100 {
      return false;
    }
    var columns := NonemptyUnique(c.columns);
    if !columns {
      return false;
    }
    var name := c.sheetName;
    if Blank(name) || |name| > 31 || (exists x :: x in name && x in "[]:*?/\\") || name[0] == '\'' ||
        name[|name| - 1] == '\'' {
      return false;
    }
    ok := CheckRules(c);
  }
}
