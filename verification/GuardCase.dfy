/** The guard does not distinguish upper-case from lower-case ASCII letters. */
module GuardCase {
  import opened Wrappers
  import opened Decimals
  import opened GuardText
  import opened Guard
  import opened GuardTheorems

  lemma LowerTwice(s: Text)
    ensures Lower(Lower(s)) == Lower(s)
  {
  }

  lemma LowerKeepsKind(c: char)
    ensures IsSpace(LowerChar(c)) == IsSpace(c)
    ensures IsIdent(LowerChar(c)) == IsIdent(c)
    ensures IsDigit(LowerChar(c)) == IsDigit(c)
    ensures |Utf8(LowerChar(c))| == |Utf8(c)|
    ensures (LowerChar(c) == ';') == (c == ';')
  {
  }

  lemma {:induction false} TrimStartLower(s: Text)
    ensures TrimStart(Lower(s)) == Lower(TrimStart(s))
  {
    if s != [] {
      LowerKeepsKind(s[0]);
      TrimStartLower(s[1..]);
      assert Lower(s)[1..] == Lower(s[1..]);
    }
  }

  lemma {:induction false} TrimEndLower(s: Text)
    ensures TrimEnd(Lower(s)) == Lower(TrimEnd(s))
  {
    if s != [] {
      LowerKeepsKind(s[|s| - 1]);
      TrimEndLower(s[..|s| - 1]);
      assert Lower(s)[..|s| - 1] == Lower(s[..|s| - 1]);
    }
  }

  lemma TrimLower(s: Text)
    ensures Trim(Lower(s)) == Lower(Trim(s))
  {
    TrimStartLower(s);
    TrimEndLower(TrimStart(s));
  }

  lemma StatementLower(query: Text)
    ensures Statement(Lower(query)) == Lower(Statement(query))
  {
    var t := Trim(query);
    TrimLower(query);
    if t != [] {
      LowerKeepsKind(t[|t| - 1]);
      TrimLower(t[..|t| - 1]);
      assert Lower(t)[..|t| - 1] == Lower(t[..|t| - 1]);
    }
    TrimLower(t);
  }

  lemma {:induction false} ByteLengthLower(s: Text)
    ensures ByteLength(Lower(s)) == ByteLength(s)
  {
    if s != [] {
      LowerKeepsKind(s[0]);
      ByteLengthLower(s[1..]);
      assert Lower(s)[1..] == Lower(s[1..]);
    }
  }

  lemma SemicolonLower(s: Text)
    ensures ';' in Lower(s) <==> ';' in s
  {
    forall i | 0 <= i < |s| ensures Lower(s)[i] == ';' <==> s[i] == ';' {
      LowerKeepsKind(s[i]);
    }
    if ';' in s {
      var i :| 0 <= i < |s| && s[i] == ';';
      assert Lower(s)[i] == ';';
    }
  }

  lemma {:induction false} LeadingDigitsLower(s: Text)
    ensures LeadingDigits(Lower(s)) == LeadingDigits(s)
  {
    if s != [] {
      LowerKeepsKind(s[0]);
      LeadingDigitsLower(s[1..]);
      assert Lower(s)[1..] == Lower(s[1..]);
    }
  }

  lemma LimitFaultLower(query: Text, at: nat)
    requires at + 5 <= |query|
    ensures LimitFault(Lower(query), at) == LimitFault(query, at)
  {
    var tail := query[at + 5..];
    assert Lower(query)[at + 5..] == Lower(tail);
    TrimStartLower(tail);
    LeadingDigitsLower(TrimStart(tail));
  }

  lemma {:induction false} FirstLimitFaultLower(query: Text, from: nat)
    requires from <= |query|
    ensures FirstLimitFault(Lower(query), from) == FirstLimitFault(query, from)
    decreases |query| - from
  {
    LowerTwice(query);
    if from + 5 <= |query| {
      LimitFaultLower(query, from);
    }
    assert LimitOk(Lower(query), from) == LimitOk(query, from);
    if from < |query| {
      FirstLimitFaultLower(query, from + 1);
    }
  }

  lemma OneStatementLower(query: Text)
    ensures OneStatement(Lower(query)) ==
      match OneStatement(query) case Err(e) => Err(e) case Ok(s) => Ok(Lower(s))
  {
    var s := Statement(query);
    StatementLower(query);
    SemicolonLower(s);
    ByteLengthLower(s);
  }

  ghost function InLowerCase(r: Result<Text, Refusal>): Result<Text, Refusal> {
    match r case Err(e) => Err(e) case Ok(t) => Ok(Lower(t))
  }

  lemma CappedLimitLower(s: Text)
    ensures InLowerCase(CappedLimit(Lower(s))) == InLowerCase(CappedLimit(s))
  {
    LowerTwice(s);
    FirstLimitFaultLower(s, 0);
    LowerAppend(s, LIMIT_SUFFIX);
    LowerAppend(Lower(s), LIMIT_SUFFIX);
  }

  /** A query and its lower-case form get the same verdict: the same refusal, or outputs
      that differ in letter case only. */
  lemma CaseInsensitive(query: Text)
    ensures InLowerCase(Prepared(Lower(query))) == InLowerCase(Prepared(query))
  {
    OneStatementLower(query);
    var checked := OneStatement(query);
    if checked.Ok? {
      LowerTwice(checked.value);
      CappedLimitLower(checked.value);
    }
  }

  // ---- The two entry points compared ----

  /** A stored signal query has passed every test of `prepare_cypher` but the LIMIT one. */
  lemma SignalQueryOnlyNeedsLimits(query: Text)
    requires SignalVerdict(query).Ok?
    ensures Prepared(query).Ok? <==> LimitsWithin(Statement(query), MAX_CYPHER_ROWS)
    ensures Prepared(query) == CappedLimit(Statement(query))
  {
    AcceptedExactly(query);
  }

  /** Exactly which signal queries may be stored. */
  lemma SignalAcceptedExactly(query: Text)
    ensures SignalVerdict(query).Ok? <==>
      (var s := Statement(query);
       && s != [] && ';' !in s && ByteLength(s) <= 4_000
       && (exists i: nat :: OccursAt(s, "$node", i)) && HasWord(Lower(s), "value")
       && NoWrites(s) && OnlyGraphCalls(Lower(s)))
  {
  }

  /** The tighter length limit keeps stored queries clear of the one that is refused when
      prepared twice. */
  lemma SignalQueryPreparesStably(query: Text)
    requires SignalVerdict(query).Ok?
    ensures Prepared(query).Ok? ==> Prepared(Prepared(query).value) == Prepared(query)
  {
    var s := Statement(query);
    SignalAcceptedExactly(query);
    AcceptedExactly(query);
    BytesAppend(s, LIMIT_SUFFIX);
    SuffixBytes();
    if Prepared(query).Ok? {
      PreparedTwice(query);
    }
  }

  // ---- A query that is accepted once and refused the second time ----

  lemma OnlyLetterA(s: Text, w: Text)
    requires w != [] && w[0] != 'a' && forall i | 0 <= i < |s| :: s[i] == 'a'
    ensures Lower(s) == s && !HasWord(s, w)
  {
    assert Lower(s) == s;
    forall i: nat ensures !OccursAt(s, w, i) {
      assert i + |w| <= |s| ==> s[i..i + |w|][0] == 'a';
    }
  }

  /** 7995 letters stay within the limit of 8000 bytes, their prepared form does not. */
  lemma RefusedTheSecondTime()
    ensures var query: Text := seq(7995, _ => 'a');
      && Prepared(query) == Ok(query + LIMIT_SUFFIX)
      && Prepared(query + LIMIT_SUFFIX) == Err(TooLong)
  {
    var query: Text := seq(7995, _ => 'a');
    TrimmedIsItsStatement(query);
    AsciiBytes(query);
    forall w | w in WRITE_WORDS ensures !HasWord(Lower(query), w) {
      WriteWordsAreWords(w);
      assert w[0] != 'a';
      OnlyLetterA(query, w);
    }
    OnlyLetterA(query, "call");
    OnlyLetterA(query, "limit");
    AcceptedExactly(query);
    BytesAppend(query, LIMIT_SUFFIX);
    SuffixBytes();
    PreparedTwice(query);
  }
}
