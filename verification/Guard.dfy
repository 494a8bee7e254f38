/** The bounds a query must meet before the server runs it. Every scan is a method
    with the program's loop; its contract is a function that looks at every position. */
module Guard {
  import opened Wrappers
  import opened Decimals
  import opened GuardText

  const MAX_CYPHER_ROWS: nat := 100
  const MAX_QUERY_BYTES: nat := 8000
  const MAX_SIGNAL_BYTES: nat := 4000
  const U64_LIMIT: nat := 0x1_0000_0000_0000_0000
  const LIMIT_SUFFIX: Text := " LIMIT 100"
  const WRITE_WORDS: seq<Text> :=
    ["create", "merge", "delete", "detach", "set", "remove", "drop", "foreach", "load"]

  datatype Refusal =
    | EmptyQuery
    | ManyStatements
    | TooLong
    | WriteWord(word: Text)
    | ForeignCall
    | LimitNotNumber
    | LimitOverflow
    | LimitOutOfRange
    | NodeUnbound
    | NoValueColumn

  // ---- What the guard decides, position by position ----

  /** The statement left of one optional trailing semicolon, trimmed on both sides. */
  function Statement(query: Text): Text {
    var trimmed := Trim(query);
    if trimmed != [] && trimmed[|trimmed| - 1] == ';'
    then Trim(trimmed[..|trimmed| - 1])
    else Trim(trimmed)
  }

  function OneStatement(query: Text): Result<Text, Refusal> {
    var statement := Statement(query);
    if statement == [] then Err(EmptyQuery)
    else if ';' in statement then Err(ManyStatements)
    else if ByteLength(statement) > MAX_QUERY_BYTES then Err(TooLong)
    else Ok(statement)
  }

  /** The first word of `words` that stands alone in `lower`. */
  ghost function FirstWord(lower: Text, words: seq<Text>): (r: Option<Text>)
    ensures r.None? <==> forall w | w in words :: !HasWord(lower, w)
    ensures r.Some? ==> r.value in words && HasWord(lower, r.value)
  {
    if words == [] then None
    else if HasWord(lower, words[0]) then Some(words[0])
    else FirstWord(lower, words[1..])
  }

  predicate CallsGraph(lower: Text, at: nat)
    requires at + 4 <= |lower|
  {
    StartsWith(TrimStart(lower[at + 4..]), "graph.")
  }

  ghost predicate OnlyGraphCalls(lower: Text) {
    forall i: nat | Standalone(lower, "call", i) :: CallsGraph(lower, i)
  }

  /** The number a text starts with, after white space. */
  function NumberIn(tail: Text): Option<nat> {
    var digits := LeadingDigits(TrimStart(tail));
    if digits == [] then None else Some(Value(digits))
  }

  /** The number written after the LIMIT at `at`. */
  function RowsAfter(query: Text, at: nat): Option<nat>
    requires at + 5 <= |query|
  {
    NumberIn(query[at + 5..])
  }

  predicate Overflows(rows: Option<nat>) {
    rows.Some? && rows.value >= U64_LIMIT
  }

  predicate Within(rows: Option<nat>, max: nat) {
    rows.Some? && 1 <= rows.value <= max
  }

  /** What is wrong with the number of a LIMIT, if anything is. */
  function Fault(rows: Option<nat>): Option<Refusal> {
    if rows.None? then Some(LimitNotNumber)
    else if Overflows(rows) then Some(LimitOverflow)
    else if !Within(rows, MAX_CYPHER_ROWS) then Some(LimitOutOfRange)
    else None
  }

  function LimitFault(query: Text, at: nat): Option<Refusal>
    requires at + 5 <= |query|
  {
    Fault(RowsAfter(query, at))
  }

  predicate LimitOk(query: Text, at: nat) {
    Standalone(Lower(query), "limit", at) ==> LimitFault(query, at).None?
  }

  /** The fault of the first whole-word LIMIT at or after `from` that has one. */
  function FirstLimitFault(query: Text, from: nat): Option<Refusal>
    requires from <= |query|
    decreases |query| - from
  {
    if !LimitOk(query, from)
    then LimitFault(query, from)
    else if from == |query| then None
    else FirstLimitFault(query, from + 1)
  }

  ghost function CappedLimit(query: Text): Result<Text, Refusal> {
    match FirstLimitFault(query, 0)
    case Some(fault) => Err(fault)
    case None => Ok(if HasWord(Lower(query), "limit") then query else query + LIMIT_SUFFIX)
  }

  /** What `prepare_cypher` answers. */
  ghost function Prepared(query: Text): Result<Text, Refusal> {
    match OneStatement(query)
    case Err(e) => Err(e)
    case Ok(statement) =>
      match FirstWord(Lower(statement), WRITE_WORDS)
      case Some(word) => Err(WriteWord(word))
      case None =>
        if OnlyGraphCalls(Lower(statement)) then CappedLimit(statement) else Err(ForeignCall)
  }

  ghost function SignalVerdict(query: Text): Result<(), Refusal> {
    match OneStatement(query)
    case Err(e) => Err(e)
    case Ok(statement) =>
      if !exists i: nat :: OccursAt(statement, "$node", i) then Err(NodeUnbound)
      else if !HasWord(Lower(statement), "value") then Err(NoValueColumn)
      else match FirstWord(Lower(statement), WRITE_WORDS)
           case Some(word) => Err(WriteWord(word))
           case None =>
             if !OnlyGraphCalls(Lower(statement)) then Err(ForeignCall)
             else if ByteLength(statement) > MAX_SIGNAL_BYTES then Err(TooLong)
             else Ok(())
  }

  // ---- The scans ----

  /** True exactly when the word occurs with no identifier character on either side. */
  method ContainsWord(haystack: Text, word: Text) returns (found: bool)
    requires IsWord(word)
    ensures found <==> HasWord(haystack, word)
  {
    var from := 0;
    while true
      invariant from <= |haystack|
      invariant forall i: nat | i < from :: !Standalone(haystack, word, i)
      decreases |haystack| - from
    {
      match FindFrom(haystack, word, from) {
        case None => break;
        case Some(at) =>
          var after := at + |word|;
          if BoundaryBefore(haystack, at) && BoundaryAfter(haystack, after) {
            assert Standalone(haystack, word, at);
            return true;
          }
          SkipLosesNothing(haystack, word, from, at);
          from := after;
          if from >= |haystack| { break; }
      }
    }
    return false;
  }

  method FirstContained(lower: Text, words: seq<Text>) returns (r: Option<Text>)
    requires forall w | w in words :: IsWord(w)
    ensures r == FirstWord(lower, words)
  {
    for i := 0 to |words|
      invariant FirstWord(lower, words) == FirstWord(lower, words[i..])
    {
      var found := ContainsWord(lower, words[i]);
      if found {
        return Some(words[i]);
      }
      assert words[i..][1..] == words[i + 1..];
    }
    return None;
  }

  lemma WriteWordsAreWords(w: Text)
    requires w in WRITE_WORDS
    ensures IsWord(w) && w != "limit" && w != "100"
  {
  }

  method RejectWrites(query: Text) returns (refusal: Option<Refusal>)
    ensures refusal == match FirstWord(Lower(query), WRITE_WORDS)
                       case None => None
                       case Some(word) => Some(WriteWord(word))
  {
    forall w | w in WRITE_WORDS ensures IsWord(w) { WriteWordsAreWords(w); }
    hide *;
    var word := FirstContained(Lower(query), WRITE_WORDS);
    return match word case None => None case Some(w) => Some(WriteWord(w));
  }

  method RejectNonGraphCalls(query: Text) returns (refusal: Option<Refusal>)
    ensures refusal == if OnlyGraphCalls(Lower(query)) then None else Some(ForeignCall)
  {
    var lower := Lower(query);
    var index := 0;
    while true
      invariant index <= |lower|
      invariant forall i: nat | i < index && Standalone(lower, "call", i) :: CallsGraph(lower, i)
      decreases |lower| - index
    {
      match FindFrom(lower, "call", index) {
        case None => break;
        case Some(at) =>
          var after := at + 4;
          if BoundaryBefore(lower, at) && BoundaryAfter(lower, after) {
            assert Standalone(lower, "call", at);
            var tail := TrimStart(lower[after..]);
            if !StartsWith(tail, "graph.") {
              return Some(ForeignCall);
            }
          }
          SkipLosesNothing(lower, "call", index, at);
          index := after;
          if index >= |lower| { break; }
      }
    }
    return None;
  }

  /** The number after a LIMIT is accepted exactly when it is there and in 1..100. */
  method CheckLimit(query: Text, after: nat) returns (fault: Option<Refusal>)
    requires 5 <= after <= |query|
    ensures fault == LimitFault(query, after - 5)
    ensures fault.None? <==> Within(RowsAfter(query, after - 5), MAX_CYPHER_ROWS)
    ensures fault == Some(LimitNotNumber) <==> RowsAfter(query, after - 5).None?
    ensures fault == Some(LimitOverflow) <==> Overflows(RowsAfter(query, after - 5))
    ensures fault.Some? ==> fault.value in {LimitNotNumber, LimitOverflow, LimitOutOfRange}
  {
    var rest := TrimStart(query[after..]);
    var digits := LeadingDigits(rest);
    if digits == [] {
      return Some(LimitNotNumber);
    }
    var rows := Value(digits);
    if rows >= U64_LIMIT {
      return Some(LimitOverflow);
    }
    if rows == 0 || rows > MAX_CYPHER_ROWS {
      return Some(LimitOutOfRange);
    }
    return None;
  }

  method CapLimit(query: Text) returns (r: Result<Text, Refusal>)
    ensures r == CappedLimit(query)
  {
    hide RowsAfter, LimitFault, FirstLimitFault, CappedLimit, Scanned, Within, Overflows;
    NothingScanned(query);
    var lower := Lower(query);
    var searchFrom := 0;
    var found := false;
    while true
      invariant searchFrom <= |lower|
      invariant Scanned(query, searchFrom, found)
      decreases |lower| - searchFrom
    {
      match FindFrom(lower, "limit", searchFrom) {
        case None => break;
        case Some(at) =>
          var after := at + 5;
          ghost var foundBefore := found;
          if BoundaryBefore(lower, at) && BoundaryAfter(lower, after) {
            found := true;
            var fault := CheckLimit(query, after);
            if fault.Some? {
              FirstFaultAt(query, searchFrom, at, foundBefore);
              return Err(fault.value);
            }
          }
          ScanStep(query, searchFrom, at, foundBefore);
          searchFrom := after;
          if searchFrom >= |lower| {
            break;
          }
      }
    }
    ScanEnd(query, searchFrom, found);
    if found {
      return Ok(query);
    } else {
      return Ok(query + LIMIT_SUFFIX);
    }
  }

  /** The loop of `CapLimit` has looked at everything before `end`. */
  ghost predicate Scanned(query: Text, end: nat, found: bool) {
    && (forall i: nat | i < end :: LimitOk(query, i))
    && (found <==> exists i: nat :: i < end && Standalone(Lower(query), "limit", i))
  }

  lemma NothingScanned(query: Text)
    ensures Scanned(query, 0, false)
  {
  }

  lemma {:induction false} FirstFaultFrom(query: Text, from: nat, end: nat)
    requires from <= end <= |query| && forall i: nat | i < end :: LimitOk(query, i)
    ensures FirstLimitFault(query, from) == FirstLimitFault(query, end)
    decreases |query| - from
  {
    if from < end {
      FirstFaultFrom(query, from + 1, end);
    }
  }

  lemma FirstFaultAt(query: Text, from: nat, at: nat, found: bool)
    requires from <= |query| && FindFrom(Lower(query), "limit", from) == Some(at)
    requires Standalone(Lower(query), "limit", at) && LimitFault(query, at).Some?
    requires Scanned(query, from, found)
    ensures CappedLimit(query) == Err(LimitFault(query, at).value)
  {
    FirstFaultFrom(query, 0, at);
  }

  lemma ScanStep(query: Text, from: nat, at: nat, found: bool)
    requires from <= |query| && FindFrom(Lower(query), "limit", from) == Some(at)
    requires Scanned(query, from, found) && LimitOk(query, at)
    ensures Scanned(query, at + 5, found || Standalone(Lower(query), "limit", at))
  {
    SkipLosesNothing(Lower(query), "limit", from, at);
  }

  lemma ScanEnd(query: Text, from: nat, found: bool)
    requires from <= |query| && Scanned(query, from, found)
    requires FindFrom(Lower(query), "limit", from).None?
    ensures CappedLimit(query) == Ok(if found then query else query + LIMIT_SUFFIX)
  {
    FirstFaultFrom(query, 0, |query|);
  }

  method PrepareCypher(query: Text) returns (r: Result<Text, Refusal>)
    ensures r == Prepared(query)
  {
    var checked := OneStatement(query);
    if checked.Err? { return Err(checked.error); }
    var statement := checked.value;
    var refusal := RejectWrites(statement);
    if refusal.Some? { return Err(refusal.value); }
    refusal := RejectNonGraphCalls(statement);
    if refusal.Some? { return Err(refusal.value); }
    r := CapLimit(statement);
  }

  method ValidateSignalQuery(query: Text) returns (r: Result<(), Refusal>)
    ensures r == SignalVerdict(query)
  {
    var checked := OneStatement(query);
    if checked.Err? { return Err(checked.error); }
    var statement := checked.value;
    if FindFrom(statement, "$node", 0).None? { return Err(NodeUnbound); }
    var hasValue := ContainsWord(Lower(statement), "value");
    if !hasValue { return Err(NoValueColumn); }
    var refusal := RejectWrites(statement);
    if refusal.Some? { return Err(refusal.value); }
    refusal := RejectNonGraphCalls(statement);
    if refusal.Some? { return Err(refusal.value); }
    if ByteLength(statement) > MAX_SIGNAL_BYTES { return Err(TooLong); }
    return Ok(());
  }
}
