/** What the guard promises about the query it lets through. */
module GuardTheorems {
  import opened Wrappers
  import opened Decimals
  import opened GuardText
  import opened Guard

  // ---- Trimming ----

  predicate Trimmed(s: Text) {
    s != [] ==> !IsSpace(s[0]) && !IsSpace(s[|s| - 1])
  }

  lemma {:induction false} TrimStartShape(s: Text)
    ensures |TrimStart(s)| <= |s| && TrimStart(s) == s[|s| - |TrimStart(s)|..]
    ensures TrimStart(s) != [] ==> !IsSpace(TrimStart(s)[0])
  {
    if s != [] && IsSpace(s[0]) {
      TrimStartShape(s[1..]);
    }
  }

  lemma {:induction false} TrimEndShape(s: Text)
    ensures |TrimEnd(s)| <= |s| && TrimEnd(s) == s[..|TrimEnd(s)|]
    ensures TrimEnd(s) != [] ==> !IsSpace(TrimEnd(s)[|TrimEnd(s)| - 1])
  {
    if s != [] && IsSpace(s[|s| - 1]) {
      TrimEndShape(s[..|s| - 1]);
    }
  }

  lemma TrimIsTrimmed(s: Text)
    ensures Trimmed(Trim(s))
  {
    TrimStartShape(s);
    TrimEndShape(TrimStart(s));
  }

  lemma {:induction false} TrimStartAppend(s: Text, t: Text)
    requires TrimStart(s) != []
    ensures TrimStart(s + t) == TrimStart(s) + t
  {
    if s != [] && IsSpace(s[0]) {
      TrimStartAppend(s[1..], t);
      assert (s + t)[1..] == s[1..] + t;
    }
  }

  lemma StatementIsTrimmed(query: Text)
    ensures Trimmed(Statement(query))
  {
    var trimmed := Trim(query);
    TrimIsTrimmed(trimmed);
    if trimmed != [] {
      TrimIsTrimmed(trimmed[..|trimmed| - 1]);
    }
  }

  // ---- Appending the default LIMIT ----

  lemma LowerAppend(s: Text, t: Text)
    ensures Lower(s + t) == Lower(s) + Lower(t)
  {
  }

  lemma StandaloneBeforeSuffix(query: Text, w: Text, i: nat)
    requires IsWord(w) && i + |w| <= |query|
    ensures Standalone(Lower(query + LIMIT_SUFFIX), w, i) <==> Standalone(Lower(query), w, i)
  {
    LowerAppend(query, LIMIT_SUFFIX);
    StandaloneBefore(Lower(query), Lower(LIMIT_SUFFIX), w, i);
  }

  lemma StandaloneBefore(s: Text, t: Text, w: Text, i: nat)
    requires t != [] && !IsIdent(t[0]) && i + |w| <= |s|
    ensures Standalone(s + t, w, i) <==> Standalone(s, w, i)
  {
    assert (s + t)[i..i + |w|] == s[i..i + |w|];
  }

  const LOWER_SUFFIX: Text := " limit 100"

  lemma SuffixLowers(query: Text)
    ensures Lower(query + LIMIT_SUFFIX) == Lower(query) + LOWER_SUFFIX
  {
    LowerAppend(query, LIMIT_SUFFIX);
    assert Lower(LIMIT_SUFFIX) == LOWER_SUFFIX;
  }

  lemma WordsOfSuffix(w: Text, i: nat)
    requires IsWord(w) && Standalone(LOWER_SUFFIX, w, i)
    ensures (i == 1 && w == "limit") || (i == 7 && w == "100")
  {
    var s := LOWER_SUFFIX;
    assert forall k | i <= k < i + |w| :: s[k] == s[i..i + |w|][k - i] && IsIdent(s[k]);
    assert !IsIdent(s[0]) && !IsIdent(s[6]);
    assert i == 1 || i == 7;
    assert w == if i == 1 then s[1..6] else s[7..10];
  }

  /** A whole word of `a + b` that reaches past `a` lies in `b` when `b` starts with no
      identifier character. */
  lemma StandaloneInTail(a: Text, b: Text, w: Text, i: nat)
    requires b != [] && !IsIdent(b[0]) && IsWord(w)
    requires Standalone(a + b, w, i) && i + |w| > |a|
    ensures i > |a| && Standalone(b, w, i - |a|)
  {
    var s := a + b;
    assert forall k | i <= k < i + |w| :: s[k] == s[i..i + |w|][k - i] && IsIdent(s[k]);
    assert s[|a|] == b[0];
    assert i > |a|;
    assert s[i..i + |w|] == b[i - |a|..i - |a| + |w|];
    assert s[i - 1] == b[i - |a| - 1];
  }

  lemma StandaloneInSuffix(query: Text, w: Text, i: nat)
    requires IsWord(w) && i + |w| > |query|
    requires Standalone(Lower(query + LIMIT_SUFFIX), w, i)
    ensures (i == |query| + 1 && w == "limit") || (i == |query| + 7 && w == "100")
  {
    SuffixLowers(query);
    StandaloneInTail(Lower(query), LOWER_SUFFIX, w, i);
    WordsOfSuffix(w, i - |query|);
  }

  lemma SuffixAddsNoWord(query: Text, w: Text)
    requires IsWord(w) && w != "limit" && w != "100"
    ensures HasWord(Lower(query + LIMIT_SUFFIX), w) <==> HasWord(Lower(query), w)
  {
    var longer := Lower(query + LIMIT_SUFFIX);
    if HasWord(longer, w) {
      var i: nat :| Standalone(longer, w, i);
      if i + |w| > |query| { StandaloneInSuffix(query, w, i); }
      StandaloneBeforeSuffix(query, w, i);
    }
    if HasWord(Lower(query), w) {
      var i: nat :| Standalone(Lower(query), w, i);
      StandaloneBeforeSuffix(query, w, i);
    }
  }

  lemma SuffixKeepsGraphCalls(query: Text)
    requires OnlyGraphCalls(Lower(query))
    ensures OnlyGraphCalls(Lower(query + LIMIT_SUFFIX))
  {
    hide Lower, StartsWith, TrimStart, CallsGraph, BoundaryBefore, BoundaryAfter;
    var lower, longer := Lower(query), Lower(query + LIMIT_SUFFIX);
    forall i: nat | Standalone(longer, "call", i) ensures CallsGraph(longer, i) {
      if i + 4 > |query| { StandaloneInSuffix(query, "call", i); }
      StandaloneBeforeSuffix(query, "call", i);
      assert CallsGraph(lower, i);
      LowerAppend(query, LIMIT_SUFFIX);
      GraphCallStays(lower, Lower(LIMIT_SUFFIX), i);
    }
  }

  lemma GraphCallStays(s: Text, t: Text, i: nat)
    requires i + 4 <= |s| && CallsGraph(s, i)
    ensures CallsGraph(s + t, i)
  {
    TrimStartAppend(s[i + 4..], t);
    assert (s + t)[i + 4..] == s[i + 4..] + t;
  }

  lemma SuffixHasLimit(query: Text)
    ensures Standalone(Lower(query + LIMIT_SUFFIX), "limit", |query| + 1)
  {
    SuffixLowers(query);
    var lower := Lower(query) + LOWER_SUFFIX;
    assert LOWER_SUFFIX[1..6] == "limit";
    assert lower[|query| + 1..|query| + 6] == LOWER_SUFFIX[1..6];
  }

  lemma SuffixLimitIsFine(query: Text)
    requires !HasWord(Lower(query), "limit")
    ensures forall i: nat :: LimitOk(query + LIMIT_SUFFIX, i)
  {
    var t := query + LIMIT_SUFFIX;
    forall i: nat ensures LimitOk(t, i) {
      if Standalone(Lower(t), "limit", i) {
        if i + 5 <= |query| {
          StandaloneBeforeSuffix(query, "limit", i);
        } else {
          StandaloneInSuffix(query, "limit", i);
          OneHundred();
          assert t[i + 5..] == " 100";
        }
      }
    }
  }

  lemma OneHundred()
    ensures LeadingDigits(TrimStart(" 100")) == "100" && Value("100") == 100
  {
    assert " 100"[1..] == "100";
    assert TrimStart(" 100") == TrimStart("100") == "100";
    assert "100"[1..] == "00" && "00"[1..] == "0" && "0"[1..] == "";
    assert LeadingDigits("0") == "0" && LeadingDigits("00") == "00";
    assert "100"[..2] == "10" && "10"[..1] == "1" && "1"[..0] == "";
    assert Value("1") == 1 && Value("10") == 10;
  }

  // ---- What an accepted query satisfies ----

  ghost predicate NoWrites(query: Text) {
    forall w | w in WRITE_WORDS :: !HasWord(Lower(query), w)
  }

  ghost predicate LimitsWithin(query: Text, max: nat) {
    forall i: nat | Standalone(Lower(query), "limit", i) :: Within(RowsAfter(query, i), max)
  }

  ghost predicate ReadOnlyAndCapped(query: Text) {
    && query != [] && Trimmed(query) && ';' !in query
    && NoWrites(query)
    && OnlyGraphCalls(Lower(query))
    && HasWord(Lower(query), "limit")
    && LimitsWithin(query, 100)
  }

  lemma {:induction false} FirstFaultNone(query: Text, from: nat)
    requires from <= |query|
    ensures FirstLimitFault(query, from).None? <==> forall i: nat | from <= i :: LimitOk(query, i)
    decreases |query| - from
  {
    if LimitOk(query, from) && from < |query| {
      FirstFaultNone(query, from + 1);
    }
  }

  lemma LimitsAreOk(query: Text)
    ensures (forall i: nat :: LimitOk(query, i)) <==> LimitsWithin(query, MAX_CYPHER_ROWS)
  {
    if LimitsWithin(query, MAX_CYPHER_ROWS) {
      forall i: nat ensures LimitOk(query, i) {}
    } else {
      var i: nat :| Standalone(Lower(query), "limit", i)
        && !Within(RowsAfter(query, i), MAX_CYPHER_ROWS);
      assert !LimitOk(query, i);
    }
  }

  /** Exactly which queries are accepted, and what is sent on for them. */
  lemma AcceptedExactly(query: Text)
    ensures Prepared(query).Ok? <==>
      (var s := Statement(query);
       && s != [] && ';' !in s && ByteLength(s) <= 8_000
       && NoWrites(s) && OnlyGraphCalls(Lower(s)) && LimitsWithin(s, 100))
    ensures Prepared(query).Ok? ==>
      (var s := Statement(query);
       Prepared(query).value == if HasWord(Lower(s), "limit") then s else s + " LIMIT 100")
  {
    var s := Statement(query);
    FirstFaultNone(s, 0);
    LimitsAreOk(s);
  }

  /** The first whole-word LIMIT without an acceptable number. */
  ghost predicate FirstBadLimit(query: Text, i: nat) {
    && Standalone(Lower(query), "limit", i) && !LimitOk(query, i)
    && forall j: nat | j < i :: LimitOk(query, j)
  }

  lemma {:induction false} FirstFaultSome(query: Text, from: nat) returns (i: nat)
    requires from <= |query| && FirstLimitFault(query, from).Some?
    requires forall j: nat | j < from :: LimitOk(query, j)
    ensures FirstBadLimit(query, i) && LimitFault(query, i) == FirstLimitFault(query, from)
    decreases |query| - from
  {
    if LimitOk(query, from) {
      i := FirstFaultSome(query, from + 1);
    } else {
      i := from;
    }
  }

  predicate OutOfRange(rows: Option<nat>) {
    rows.Some? && (rows.value == 0 || MAX_CYPHER_ROWS < rows.value < U64_LIMIT)
  }

  /** What is true of a statement that is refused for the given reason. */
  ghost predicate Explains(refusal: Refusal, s: Text) {
    match refusal
    case EmptyQuery => s == []
    case ManyStatements => ';' in s
    case TooLong => ByteLength(s) > MAX_QUERY_BYTES
    case WriteWord(w) => w in WRITE_WORDS && HasWord(Lower(s), w)
    case ForeignCall => exists i: nat :: Standalone(Lower(s), "call", i) && !CallsGraph(Lower(s), i)
    case LimitNotNumber => exists i: nat :: FirstBadLimit(s, i) && RowsAfter(s, i) == None
    case LimitOverflow => exists i: nat :: FirstBadLimit(s, i) && Overflows(RowsAfter(s, i))
    case LimitOutOfRange => exists i: nat :: FirstBadLimit(s, i) && OutOfRange(RowsAfter(s, i))
    case _ => false
  }

  /** Every refusal names a defect the statement really has; for a LIMIT it is the defect of
      the first bad one. */
  lemma RefusalExplained(query: Text)
    requires Prepared(query).Err?
    ensures Explains(Prepared(query).error, Statement(query))
  {
    var s := Statement(query);
    if FirstLimitFault(s, 0).Some? {
      var i := FirstFaultSome(s, 0);
      assert FirstBadLimit(s, i);
    }
  }

  lemma SuffixKeepsSafe(s: Text)
    requires s != [] && Trimmed(s) && ';' !in s
    requires NoWrites(s) && OnlyGraphCalls(Lower(s)) && !HasWord(Lower(s), "limit")
    ensures ReadOnlyAndCapped(s + LIMIT_SUFFIX)
  {
    var t := s + LIMIT_SUFFIX;
    forall w | w in WRITE_WORDS ensures !HasWord(Lower(t), w) {
      WriteWordsAreWords(w);
      SuffixAddsNoWord(s, w);
    }
    SuffixKeepsGraphCalls(s);
    SuffixHasLimit(s);
    SuffixLimitIsFine(s);
    LimitsAreOk(t);
    assert t[|t| - 1] == '0' && t[0] == s[0];
    assert ';' !in LIMIT_SUFFIX;
  }

  /** Every check still holds of the text that is sent, although ` LIMIT 100` is appended
      after the checks ran. */
  lemma OutputIsReadOnlyAndCapped(query: Text)
    requires Prepared(query).Ok?
    ensures ReadOnlyAndCapped(Prepared(query).value)
    ensures ByteLength(Prepared(query).value) <= 8_010
  {
    var s := Statement(query);
    AcceptedExactly(query);
    StatementIsTrimmed(query);
    if !HasWord(Lower(s), "limit") {
      SuffixKeepsSafe(s);
      BytesAppend(s, LIMIT_SUFFIX);
      SuffixBytes();
    }
  }

  lemma FirstCharacter(s: Text)
    ensures Bytes(s) == if s == [] then [] else Utf8(s[0]) + Bytes(s[1..])
  {
    hide Utf8;
  }

  lemma {:induction false} BytesAppend(s: Text, t: Text)
    ensures Bytes(s + t) == Bytes(s) + Bytes(t)
  {
    hide Utf8, Bytes;
    FirstCharacter(s);
    if s == [] {
      assert s + t == t;
    } else {
      FirstCharacter(s + t);
      BytesAppend(s[1..], t);
      assert (s + t)[1..] == s[1..] + t;
    }
  }

  lemma {:induction false} AsciiBytes(s: Text)
    requires forall i | 0 <= i < |s| :: s[i] as int < 0x80
    ensures ByteLength(s) == |s|
    ensures forall i | 0 <= i < |s| :: Bytes(s)[i] == s[i] as int
  {
    if s != [] {
      AsciiBytes(s[1..]);
    }
  }

  lemma SuffixBytes()
    ensures ByteLength(LIMIT_SUFFIX) == 10
  {
    AsciiBytes(LIMIT_SUFFIX);
  }

  // ---- Preparing twice ----

  lemma {:induction false} TrimKeepsTrimmed(s: Text)
    requires Trimmed(s)
    ensures Trim(s) == s
  {
  }

  lemma TrimmedIsItsStatement(s: Text)
    requires Trimmed(s) && ';' !in s
    ensures Statement(s) == s
  {
    TrimKeepsTrimmed(s);
  }

  /** Preparing an output again changes nothing, except that an output the suffix pushed
      past the byte limit is refused the second time. */
  lemma PreparedTwice(query: Text)
    requires Prepared(query).Ok?
    ensures var out := Prepared(query).value;
      Prepared(out) == if ByteLength(out) <= 8_000 then Ok(out) else Err(TooLong)
  {
    var out := Prepared(query).value;
    OutputIsReadOnlyAndCapped(query);
    TrimmedIsItsStatement(out);
    if ByteLength(out) <= MAX_QUERY_BYTES {
      AcceptedExactly(out);
    }
  }

  /** The queries sent as they are: exactly those that meet every condition themselves. */
  lemma SentUnchangedExactly(query: Text)
    ensures Prepared(query) == Ok(query) <==>
      ReadOnlyAndCapped(query) && ByteLength(query) <= MAX_QUERY_BYTES
  {
    hide LimitsWithin, OnlyGraphCalls, NoWrites, HasWord, ByteLength, Statement, Trimmed;
    AcceptedExactly(query);
    if Prepared(query) == Ok(query) {
      OutputIsReadOnlyAndCapped(query);
      TrimmedIsItsStatement(query);
    } else if ReadOnlyAndCapped(query) {
      TrimmedIsItsStatement(query);
    }
  }
}
