/** The response part of a rule: what a match hands to the connection. */
module Rules {
  import opened Text

  datatype MockError = MockError(code: Text, message: Text, severity: Text, detail: Text, hint: Text)

  type Row = seq<Text>

  datatype Rule = Rule(id: Text, columns: seq<Text>, types: seq<int>, rows: seq<Row>, tag: Text,
                       error: Option<MockError>, dropConnection: bool, failAfterN: int)

  function Plain(id: Text, columns: seq<Text>, types: seq<int>, rows: seq<Row>, tag: Text): Rule {
    Rule(id, columns, types, rows, tag, None, false, 0)
  }

  /** The check an execution makes on the hits it finds. */
  predicate Fails(rule: Rule, hits: int) {
    rule.error.Some? && !(rule.failAfterN > 0 && hits <= rule.failAfterN)
  }

  const TEXT_OID := 25
  const INT8_OID := 20

  function TextTypes(n: nat): (types: seq<int>)
    ensures |types| == n && forall i :: 0 <= i < n ==> types[i] == TEXT_OID
  {
    seq(n, _ => TEXT_OID)
  }
}
