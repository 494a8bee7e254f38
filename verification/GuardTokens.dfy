/** The guard reads the leading digits after a LIMIT, whatever follows them. This is when they
    are the whole token. */
module GuardTokens {
  import opened Wrappers
  import opened Decimals
  import opened GuardText
  import opened Guard
  import opened GuardTheorems

  predicate InToken(c: char) {
    IsIdent(c) || c == '.'
  }

  /** The token a text starts with: identifier characters and dots. */
  function Token(s: Text): Text {
    if s != [] && InToken(s[0]) then [s[0]] + Token(s[1..]) else []
  }

  /** The digits are not followed by more of the same token. */
  predicate DigitsEndToken(s: Text) {
    var n := |LeadingDigits(s)|;
    n >= |s| || !InToken(s[n])
  }

  /** The leading digits are the whole token exactly when the next character, if there is one,
      is neither an identifier character nor a dot. */
  lemma {:induction false} DigitsAreTokenExactly(s: Text)
    ensures LeadingDigits(s) <= Token(s) && |LeadingDigits(s)| <= |s|
    ensures LeadingDigits(s) == Token(s) <==> DigitsEndToken(s)
    ensures LeadingDigits(s) == Token(s) <==> AllDigits(Token(s))
  {
    if s != [] && IsDigit(s[0]) {
      DigitsAreTokenExactly(s[1..]);
      assert LeadingDigits(s)[1..] == LeadingDigits(s[1..]) && Token(s)[1..] == Token(s[1..]);
      var n := |LeadingDigits(s[1..])|;
      assert n < |s[1..]| ==> s[1..][n] == s[n + 1];
      assert forall k | 0 <= k < |Token(s[1..])| :: Token(s)[k + 1] == Token(s[1..])[k];
    } else if s != [] && InToken(s[0]) {
      assert Token(s)[0] == s[0];
    }
  }

  /** The token after white space, when it is a number. */
  function NumberToken(tail: Text): Option<nat> {
    var token := Token(TrimStart(tail));
    if token != [] && AllDigits(token) then Some(Value(token)) else None
  }

  /** What the guard reads after a LIMIT is the number a reader sees there exactly when the
      digits end their token, or there are none and no number either. */
  lemma NumberReadExactly(tail: Text)
    ensures NumberIn(tail) == NumberToken(tail) <==>
      NumberIn(tail).None? || DigitsEndToken(TrimStart(tail))
  {
    DigitsAreTokenExactly(TrimStart(tail));
  }

  /** In an accepted query every LIMIT shows a number from 1 to `max` as a whole token exactly
      when the digits of each end their token. */
  lemma WholeLimitsExactly(query: Text, max: nat)
    requires LimitsWithin(query, max)
    ensures
      (forall i: nat | Standalone(Lower(query), "limit", i) ::
         Within(NumberToken(query[i + 5..]), max))
      <==>
      (forall i: nat | Standalone(Lower(query), "limit", i) ::
         DigitsEndToken(TrimStart(query[i + 5..])))
  {
    hide Token, LeadingDigits, TrimStart, Standalone;
    forall i: nat | Standalone(Lower(query), "limit", i)
      ensures i + 5 <= |query|
      ensures Within(NumberToken(query[i + 5..]), max) <==>
        DigitsEndToken(TrimStart(query[i + 5..]))
    {
      StandaloneFits(Lower(query), "limit", i);
      DigitsAreTokenExactly(TrimStart(query[i + 5..]));
      assert Within(RowsAfter(query, i), max);
    }
  }

  lemma StandaloneFits(s: Text, w: Text, i: nat)
    requires Standalone(s, w, i)
    ensures i + |w| <= |s|
  {
  }

  // ---- A LIMIT that shows a larger number ----

  const FIVE_BILLION: Text := "limit 5e9"

  lemma FivePrefix()
    ensures NumberIn(" 5e9") == Some(5) && NumberToken(" 5e9") == None
  {
    assert " 5e9"[1..] == "5e9" && "5e9"[1..] == "e9" && "e9"[1..] == "9" && "9"[1..] == "";
    assert TrimStart(" 5e9") == TrimStart("5e9") == "5e9";
    assert LeadingDigits("e9") == "" && LeadingDigits("5e9") == "5";
    assert "5"[..0] == "" && Value("5") == 5;
    assert Token("e9") == "e9" && Token("5e9") == "5e9" && !IsDigit("5e9"[1]);
  }

  lemma NoSuchPair(s: Text, w: Text)
    requires |w| >= 2 && forall i | 0 <= i < |s| - 1 :: s[i] != w[0] || s[i + 1] != w[1]
    ensures !HasWord(s, w)
  {
    forall i: nat ensures !OccursAt(s, w, i) {
      assert i + |w| <= |s| ==> s[i..i + |w|][0] == s[i] && s[i..i + |w|][1] == s[i + 1];
    }
  }

  lemma NoWriteWord(w: Text)
    requires w in WRITE_WORDS + ["call"]
    ensures !HasWord(FIVE_BILLION, w)
  {
    assert |w| >= 2;
    NoSuchPair(FIVE_BILLION, w);
  }

  lemma OnlyLimit(i: nat)
    requires Standalone(FIVE_BILLION, "limit", i)
    ensures i == 0
  {
    assert FIVE_BILLION[i] == FIVE_BILLION[i..i + 5][0] == 'l';
  }

  lemma FiveBillionText()
    ensures Lower(FIVE_BILLION) == FIVE_BILLION && FIVE_BILLION[5..] == " 5e9"
    ensures Trimmed(FIVE_BILLION) && ';' !in FIVE_BILLION && FIVE_BILLION != []
    ensures Standalone(FIVE_BILLION, "limit", 0) && ByteLength(FIVE_BILLION) <= MAX_QUERY_BYTES
  {
    assert Lower(FIVE_BILLION) == FIVE_BILLION && FIVE_BILLION[0..5] == "limit";
    hide ByteLength;
    AsciiBytes(FIVE_BILLION);
  }

  lemma FiveBillionLimits()
    ensures LimitsWithin(FIVE_BILLION, MAX_CYPHER_ROWS)
    ensures !DigitsEndToken(TrimStart(FIVE_BILLION[5..]))
  {
    FiveBillionText();
    FivePrefix();
    NumberReadExactly(" 5e9");
    forall i: nat | Standalone(FIVE_BILLION, "limit", i) ensures i == 0 { OnlyLimit(i); }
    hide *;
    FirstOnly(FIVE_BILLION);
  }

  lemma FirstOnly(q: Text)
    requires |q| >= 5 && Lower(q) == q
    requires forall i: nat | Standalone(q, "limit", i) :: i == 0
    requires Within(NumberIn(q[5..]), MAX_CYPHER_ROWS)
    ensures LimitsWithin(q, MAX_CYPHER_ROWS)
  {
  }

  lemma FiveBillionWords()
    ensures NoWrites(FIVE_BILLION) && OnlyGraphCalls(Lower(FIVE_BILLION))
  {
    FiveBillionText();
    forall w | w in WRITE_WORDS + ["call"] ensures !HasWord(FIVE_BILLION, w) { NoWriteWord(w); }
    NoCalls(FIVE_BILLION);
  }

  lemma NoCalls(s: Text)
    ensures !HasWord(s, "call") ==> OnlyGraphCalls(s)
  {
  }

  /** `limit 5e9` is sent as it is: its digits are within the bound, its number is not. */
  lemma LimitPrefixAccepted()
    ensures Prepared(FIVE_BILLION) == Ok(FIVE_BILLION)
    ensures Standalone(Lower(FIVE_BILLION), "limit", 0)
    ensures !DigitsEndToken(TrimStart(FIVE_BILLION[5..]))
  {
    FiveBillionText();
    FiveBillionWords();
    FiveBillionLimits();
    hide NoWrites, OnlyGraphCalls, LimitsWithin, Prepared, Standalone, Trimmed, ByteLength;
    assert HasWord(FIVE_BILLION, "limit");
    SentUnchangedExactly(FIVE_BILLION);
  }
}
