/** What the guard's readings mean in terms of the text alone: what is stripped, what follows a
    CALL and a LIMIT, and which refusal comes first. */
module GuardShapes {
  import opened Basics
  import opened Wrappers
  import opened Decimals
  import opened GuardText
  import opened Guard
  import opened GuardTheorems

  predicate AllSpace(s: Text) {
    forall i | 0 <= i < |s| :: IsSpace(s[i])
  }

  // ---- Characters ----

  const WHITE_SPACE: Text :=
    ['\U{9}', '\U{A}', '\U{B}', '\U{C}', '\U{D}', '\U{20}', '\U{85}', '\U{A0}', '\U{1680}',
     '\U{2000}', '\U{2001}', '\U{2002}', '\U{2003}', '\U{2004}', '\U{2005}', '\U{2006}',
     '\U{2007}', '\U{2008}', '\U{2009}', '\U{200A}', '\U{2028}', '\U{2029}', '\U{202F}',
     '\U{205F}', '\U{3000}']

  lemma WhiteSpaceExactly(c: char)
    ensures IsSpace(c) <==> c in WHITE_SPACE
  {
  }

  lemma IdentifierExactly(c: char)
    ensures IsIdent(c) <==> c in UPPER + LOWER + "0123456789_"
  {
    assert c in UPPER + LOWER + "0123456789_" <==> c in UPPER || c in LOWER || c in "0123456789_";
  }

  lemma LowerExactly(c: char, k: nat)
    requires k < 26
    ensures LowerChar(UPPER[k]) == LOWER[k]
    ensures c !in UPPER ==> LowerChar(c) == c
  {
    Alphabet(k);
    if 'A' <= c <= 'Z' {
      Alphabet(c as int - 'A' as int);
      assert UPPER[c as int - 'A' as int] == c;
    }
  }

  // ---- White space around a text ----

  lemma {:induction false} TrimStartOf(a: Text, s: Text)
    requires AllSpace(a) && (s == [] || !IsSpace(s[0]))
    ensures TrimStart(a + s) == s
  {
    if a == [] {
      assert a + s == s;
    } else {
      TrimStartOf(a[1..], s);
      assert (a + s)[1..] == a[1..] + s;
    }
  }

  lemma {:induction false} TrimEndOf(s: Text, c: Text)
    requires AllSpace(c) && (s == [] || !IsSpace(s[|s| - 1]))
    ensures TrimEnd(s + c) == s
  {
    if c == [] {
      assert s + c == s;
    } else {
      TrimEndOf(s, c[..|c| - 1]);
      assert (s + c)[..|s + c| - 1] == s + c[..|c| - 1];
    }
  }

  lemma TrimOf(a: Text, s: Text, c: Text)
    requires AllSpace(a) && AllSpace(c) && Trimmed(s)
    ensures Trim(a + s + c) == s
  {
    if s == [] {
      TrimStartOf(a + c, []);
      assert a + s + c == (a + c) + [];
    } else {
      TrimStartOf(a, s + c);
      TrimEndOf(s, c);
      assert a + s + c == a + (s + c);
    }
  }

  lemma {:induction false} TrimStartParts(s: Text) returns (a: Text)
    ensures AllSpace(a) && s == a + TrimStart(s)
    ensures TrimStart(s) != [] ==> !IsSpace(TrimStart(s)[0])
  {
    hide IsSpace;
    if s != [] && IsSpace(s[0]) {
      var rest := TrimStartParts(s[1..]);
      a := [s[0]] + rest;
      assert TrimStart(s) == TrimStart(s[1..]);
      hide TrimStart;
      assert s == [s[0]] + (rest + TrimStart(s[1..])) == a + TrimStart(s);
    } else {
      a := [];
    }
  }

  lemma {:induction false} TrimEndParts(s: Text) returns (c: Text)
    ensures AllSpace(c) && s == TrimEnd(s) + c
    ensures TrimEnd(s) != [] ==> !IsSpace(TrimEnd(s)[|TrimEnd(s)| - 1])
  {
    hide IsSpace;
    if s != [] && IsSpace(s[|s| - 1]) {
      var rest := TrimEndParts(s[..|s| - 1]);
      c := rest + [s[|s| - 1]];
      assert TrimEnd(s) == TrimEnd(s[..|s| - 1]);
      hide TrimEnd;
      assert s == (TrimEnd(s[..|s| - 1]) + rest) + [s[|s| - 1]] == TrimEnd(s) + c;
    } else {
      c := [];
    }
  }

  lemma TrimParts(s: Text) returns (a: Text, c: Text)
    ensures AllSpace(a) && AllSpace(c) && s == a + Trim(s) + c && Trimmed(Trim(s))
  {
    a := TrimStartParts(s);
    c := TrimEndParts(TrimStart(s));
    TrimIsTrimmed(s);
    assert s == a + (Trim(s) + c);
  }

  // ---- The statement ----

  /** The last character that is no white space. */
  function LastVisible(s: Text): Option<char> {
    if s == [] then None
    else if IsSpace(s[|s| - 1]) then LastVisible(s[..|s| - 1])
    else Some(s[|s| - 1])
  }

  lemma {:induction false} LastVisibleOf(s: Text, c: Text)
    requires AllSpace(c)
    ensures LastVisible(s + c) == LastVisible(s)
  {
    if c == [] {
      assert s + c == s;
    } else {
      LastVisibleOf(s, c[..|c| - 1]);
      assert (s + c)[..|s + c| - 1] == s + c[..|c| - 1];
    }
  }

  /** A query ends in a semicolon when its last character that is no white space is one. */
  predicate EndsInSemicolon(query: Text) {
    LastVisible(query) == Some(';')
  }

  function Semicolon(query: Text): Text {
    if EndsInSemicolon(query) then ";" else ""
  }

  lemma VisibleEnd(a: Text, t: Text, c: Text)
    requires AllSpace(a) && AllSpace(c) && Trimmed(t)
    ensures LastVisible(a + t + c) == if t == [] then None else Some(t[|t| - 1])
  {
    LastVisibleOf(a + t, c);
    if t == [] {
      LastVisibleOf([], a);
      assert a + t == [] + a;
    }
  }

  lemma StatementOfTrimmed(query: Text)
    ensures var t := Trim(query);
      Statement(query) == if t != [] && t[|t| - 1] == ';' then Trim(t[..|t| - 1]) else t
  {
    TrimIsTrimmed(query);
    TrimKeepsTrimmed(Trim(query));
  }

  /** Nothing but white space and one final semicolon is taken away from a query. */
  lemma StatementParts(query: Text) returns (a: Text, b: Text, c: Text)
    ensures AllSpace(a) && AllSpace(b) && AllSpace(c)
    ensures query == a + Statement(query) + b + Semicolon(query) + c
    ensures Trimmed(Statement(query))
  {
    hide Trim, Statement, AllSpace, LastVisible;
    a, c := TrimParts(query);
    b := [];
    NoSpace();
    var t := Trim(query);
    VisibleEnd(a, t, c);
    StatementIsTrimmed(query);
    StatementOfTrimmed(query);
    if t != [] && t[|t| - 1] == ';' {
      var front, back := TrimParts(t[..|t| - 1]);
      assert t == t[..|t| - 1] + ";";
      assert query == (a + front) + Statement(query) + back + ";" + c;
      SpaceJoins(a, front);
      a, b := a + front, back;
    } else {
      assert query == a + Statement(query) + b + "" + c;
    }
  }

  lemma NoSpace()
    ensures AllSpace([])
  {
  }

  lemma SpaceJoins(a: Text, b: Text)
    requires AllSpace(a) && AllSpace(b)
    ensures AllSpace(a + b)
  {
  }

  /** Conversely, white space and one final semicolon make no difference. */
  lemma StatementOf(a: Text, s: Text, b: Text, c: Text)
    requires AllSpace(a) && AllSpace(b) && AllSpace(c) && Trimmed(s) && s != []
    ensures Statement(a + s + b + ";" + c) == s
    ensures s[|s| - 1] != ';' ==> Statement(a + s + b) == s
  {
    var ended := s + b + ";";
    assert ended[0] == s[0] && ended[|ended| - 1] == ';' && !IsSpace(';');
    TrimOf(a, ended, c);
    assert a + s + b + ";" + c == a + ended + c;
    assert ended[..|ended| - 1] == [] + s + b;
    TrimOf([], s, b);
    TrimOf(a, s, b);
    TrimKeepsTrimmed(s);
  }

  lemma StatementDecides(query: Text, other: Text)
    requires Statement(query) == Statement(other)
    ensures Prepared(query) == Prepared(other) && SignalVerdict(query) == SignalVerdict(other)
  {
  }

  /** The verdict does not depend on surrounding white space or a final semicolon. */
  lemma PreparedIgnoresFrame(a: Text, s: Text, b: Text, c: Text)
    requires AllSpace(a) && AllSpace(b) && AllSpace(c) && Trimmed(s) && s != [] && ';' !in s
    ensures Prepared(a + s + b + ";" + c) == Prepared(a + s + b) == Prepared(s)
    ensures SignalVerdict(a + s + b + ";" + c) == SignalVerdict(a + s + b) == SignalVerdict(s)
  {
    hide *;
    StatementOfWhole(a, s, b, c);
    StatementDecides(a + s + b + ";" + c, s);
    StatementDecides(a + s + b, s);
  }

  lemma StatementOfWhole(a: Text, s: Text, b: Text, c: Text)
    requires AllSpace(a) && AllSpace(b) && AllSpace(c) && Trimmed(s) && s != [] && ';' !in s
    ensures Statement(a + s + b + ";" + c) == Statement(a + s + b) == Statement(s)
  {
    StatementOf(a, s, b, c);
    StatementOf([], s, [], []);
    assert [] + s + [] == s;
  }

  // ---- After a CALL and a LIMIT ----

  /** A CALL is followed by white space, if any, and then by `graph.`. */
  lemma CallsGraphExactly(lower: Text, at: nat)
    requires at + 4 <= |lower|
    ensures CallsGraph(lower, at) <==>
      exists a, rest :: AllSpace(a) && lower[at + 4..] == a + "graph." + rest
  {
    var tail := lower[at + 4..];
    if CallsGraph(lower, at) {
      var a := TrimStartParts(tail);
      var rest := TrimStart(tail)[6..];
      assert TrimStart(tail) == "graph." + rest;
      assert tail == a + "graph." + rest;
    }
    if a, rest :| AllSpace(a) && tail == a + "graph." + rest {
      assert ("graph." + rest)[0] == 'g' && !IsSpace('g');
      TrimStartOf(a, "graph." + rest);
      assert tail == a + ("graph." + rest);
      assert ("graph." + rest)[..6] == "graph.";
    }
  }

  lemma {:induction false} LeadingDigitsOf(d: Text, rest: Text)
    requires AllDigits(d) && (rest == [] || !IsDigit(rest[0]))
    ensures LeadingDigits(d + rest) == d
  {
    if d == [] {
      assert d + rest == rest;
    } else {
      LeadingDigitsOf(d[1..], rest);
      assert (d + rest)[1..] == d[1..] + rest;
    }
  }

  /** The number after a LIMIT: the digits after white space, up to the first other character. */
  lemma NumberInOf(a: Text, d: Text, rest: Text)
    requires AllSpace(a) && AllDigits(d) && (rest == [] || !IsDigit(rest[0]))
    ensures d != [] ==> NumberIn(a + d + rest) == Some(Value(d))
    ensures d == [] && (rest == [] || !IsSpace(rest[0])) ==> NumberIn(a + d + rest) == None
  {
    assert a + d + rest == a + (d + rest);
    LeadingDigitsOf(d, rest);
    if d != [] {
      assert IsDigit(d[0]) && !IsSpace(d[0]);
      TrimStartOf(a, d + rest);
    } else if rest == [] || !IsSpace(rest[0]) {
      assert d + rest == rest;
      TrimStartOf(a, rest);
    }
  }

  // ---- The write words and the order of the refusals ----

  lemma NoWritesExactly(query: Text)
    ensures NoWrites(query) <==>
      (var lower := Lower(query);
       && !HasWord(lower, "create") && !HasWord(lower, "merge") && !HasWord(lower, "delete")
       && !HasWord(lower, "detach") && !HasWord(lower, "set") && !HasWord(lower, "remove")
       && !HasWord(lower, "drop") && !HasWord(lower, "foreach") && !HasWord(lower, "load"))
  {
    hide HasWord, Lower;
    assert |WRITE_WORDS| == 9;
    assert forall k | 0 <= k < 9 :: WRITE_WORDS[k] in WRITE_WORDS;
    assert WRITE_WORDS[0] == "create" && WRITE_WORDS[1] == "merge" && WRITE_WORDS[2] == "delete";
    assert WRITE_WORDS[3] == "detach" && WRITE_WORDS[4] == "set" && WRITE_WORDS[5] == "remove";
    assert WRITE_WORDS[6] == "drop" && WRITE_WORDS[7] == "foreach" && WRITE_WORDS[8] == "load";
  }

  /** The first word of a list that stands alone, by its place in the list. */
  lemma {:induction false} FirstWordExactly(lower: Text, words: seq<Text>, k: nat)
    requires k < |words| && HasWord(lower, words[k])
    requires forall j | 0 <= j < k :: !HasWord(lower, words[j])
    ensures FirstWord(lower, words) == Some(words[k])
  {
    hide HasWord;
    if k > 0 {
      assert !HasWord(lower, words[0]);
      FirstWordExactly(lower, words[1..], k - 1);
    }
  }

  ghost predicate OneShortStatement(s: Text) {
    s != [] && ';' !in s && ByteLength(s) <= 8_000
  }

  /** The checks come in this order; each refusal is given exactly when its own check is the
      first that fails. */
  lemma RefusalOrder(query: Text)
    ensures var s, r := Statement(query), Prepared(query);
      && (r == Err(EmptyQuery) <==> s == [])
      && (r == Err(ManyStatements) <==> s != [] && ';' in s)
      && (r == Err(TooLong) <==> s != [] && ';' !in s && ByteLength(s) > 8_000)
      && (r.Err? && r.error.WriteWord? <==> OneShortStatement(s) && !NoWrites(s))
      && (r == Err(ForeignCall) <==>
            OneShortStatement(s) && NoWrites(s) && !OnlyGraphCalls(Lower(s)))
      && (r.Err? && r.error in {LimitNotNumber, LimitOverflow, LimitOutOfRange} <==>
            OneShortStatement(s) && NoWrites(s) && OnlyGraphCalls(Lower(s))
            && !LimitsWithin(s, 100))
  {
    hide Statement, OnlyGraphCalls, HasWord, FirstLimitFault, ByteLength, Lower;
    var s := Statement(query);
    FirstFaultNone(s, 0);
    LimitsAreOk(s);
    hide LimitOk, LimitsWithin;
    if FirstLimitFault(s, 0).Some? {
      FaultKinds(s);
    }
  }

  lemma FaultKinds(s: Text)
    requires FirstLimitFault(s, 0).Some?
    ensures FirstLimitFault(s, 0).value in {LimitNotNumber, LimitOverflow, LimitOutOfRange}
  {
    var i := FirstFaultSome(s, 0);
  }

  /** The same for a signal query. */
  lemma SignalRefusalOrder(query: Text)
    ensures var s, r := Statement(query), SignalVerdict(query);
            var binds := exists i: nat :: OccursAt(s, "$node", i);
            var valued := HasWord(Lower(s), "value");
      && (r == Err(EmptyQuery) <==> s == [])
      && (r == Err(ManyStatements) <==> s != [] && ';' in s)
      && (r == Err(NodeUnbound) <==> OneShortStatement(s) && !binds)
      && (r == Err(NoValueColumn) <==> OneShortStatement(s) && binds && !valued)
      && (r.Err? && r.error.WriteWord? <==>
            OneShortStatement(s) && binds && valued && !NoWrites(s))
      && (r == Err(ForeignCall) <==>
            OneShortStatement(s) && binds && valued && NoWrites(s) && !OnlyGraphCalls(Lower(s)))
      && (r == Err(TooLong) <==>
            && s != [] && ';' !in s && ByteLength(s) > 4_000
            && (ByteLength(s) > 8_000
                || (binds && valued && NoWrites(s) && OnlyGraphCalls(Lower(s)))))
  {
    hide Statement, OnlyGraphCalls, HasWord, ByteLength, Lower, OccursAt;
  }
}
