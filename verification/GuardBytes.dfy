/** The program scans UTF-8 bytes. For words of identifier characters, which are ASCII, that
    decides the same as the scan over characters, and so do the slices taken at a match. */
module GuardBytes {
  import opened Wrappers
  import opened GuardText
  import opened Guard
  import opened GuardTheorems
  import opened GuardCase
  import opened Utf8Decoding

  predicate IsIdentByte(b: nat) {
    'a' as int <= b <= 'z' as int || 'A' as int <= b <= 'Z' as int
    || '0' as int <= b <= '9' as int || b == '_' as int
  }

  predicate BytesOccurAt(s: seq<nat>, w: seq<nat>, i: nat) {
    i + |w| <= |s| && s[i..i + |w|] == w
  }

  predicate StandaloneBytes(s: seq<nat>, w: seq<nat>, i: nat) {
    && BytesOccurAt(s, w, i)
    && (i == 0 || !IsIdentByte(s[i - 1]))
    && (i + |w| >= |s| || !IsIdentByte(s[i + |w|]))
  }

  /** The byte offset of character `i`. */
  function Offset(s: Text, i: nat): nat
    requires i <= |s|
  {
    ByteLength(s[..i])
  }

  lemma Utf8Shape(c: char)
    ensures |Utf8(c)| > 0
    ensures IsIdentByte(Utf8(c)[0]) == IsIdentByte(Utf8(c)[|Utf8(c)| - 1]) == IsIdent(c)
    ensures Utf8(c)[0] < 0x80 ==> |Utf8(c)| == 1 && Utf8(c)[0] == c as int
    ensures forall k | 0 < k < |Utf8(c)| :: Utf8(c)[k] >= 0x80
  {
  }

  lemma BytesSplit(s: Text, i: nat)
    requires i <= |s|
    ensures Bytes(s) == Bytes(s[..i]) + Bytes(s[i..]) && Offset(s, i) <= |Bytes(s)|
  {
    hide Utf8;
    BytesAppend(s[..i], s[i..]);
    assert s == s[..i] + s[i..];
  }

  lemma ByteAfter(s: Text, i: nat)
    requires i < |s|
    ensures Offset(s, i) < |Bytes(s)|
    ensures IsIdentByte(Bytes(s)[Offset(s, i)]) == IsIdent(s[i])
  {
    hide Utf8;
    BytesSplit(s, i);
    Utf8Shape(s[i]);
    assert Bytes(s[i..])[0] == Utf8(s[i])[0];
  }

  lemma ByteBefore(s: Text, i: nat)
    requires 0 < i <= |s|
    ensures 0 < Offset(s, i) <= |Bytes(s)|
    ensures IsIdentByte(Bytes(s)[Offset(s, i) - 1]) == IsIdent(s[i - 1])
  {
    hide Utf8;
    BytesSplit(s, i);
    Utf8Shape(s[i - 1]);
    var head := s[..i];
    BytesAppend(head[..i - 1], [s[i - 1]]);
    assert head == head[..i - 1] + [s[i - 1]];
    assert Bytes([s[i - 1]]) == Utf8(s[i - 1]);
  }

  lemma {:induction false} PrefixOfBytes(s: Text, w: Text)
    requires IsWord(w) || w == []
    requires BytesOccurAt(Bytes(s), Bytes(w), 0)
    ensures OccursAt(s, w, 0)
  {
    hide Utf8;
    if w != [] {
      Utf8Shape(w[0]);
      assert Bytes(w)[0] == w[0] as int;
      assert Bytes(s)[..|Bytes(w)|][0] == w[0] as int;
      Utf8Shape(s[0]);
      assert s[0] == w[0];
      assert Bytes(s)[..|Bytes(w)|][1..] == Bytes(s[1..])[..|Bytes(w[1..])|];
      PrefixOfBytes(s[1..], w[1..]);
      assert s[..|w|] == [s[0]] + s[1..][..|w| - 1];
    }
  }

  lemma NoMatchInsideCharacter(s: Text, w: Text, b: nat)
    requires IsWord(w) && b > 0 && BytesOccurAt(Bytes(s), Bytes(w), b)
    ensures s != [] && |Utf8(s[0])| <= b
    ensures BytesOccurAt(Bytes(s[1..]), Bytes(w), b - |Utf8(s[0])|)
  {
    hide Utf8, Bytes;
    AsciiBytes(w);
    FirstCharacter(s);
    assert Bytes(s)[b] == Bytes(s)[b..b + |Bytes(w)|][0] == w[0] as int;
    Utf8Shape(s[0]);
    SliceOfTail(Utf8(s[0]), Bytes(s[1..]), b, |Bytes(w)|);
  }

  lemma SliceOfTail(a: seq<nat>, t: seq<nat>, b: nat, n: nat)
    requires |a| <= b && b + n <= |a + t|
    ensures (a + t)[b..b + n] == t[b - |a|..b - |a| + n]
  {
  }

  lemma OneCharacterFurther(s: Text, w: Text, j: nat)
    requires s != [] && OccursAt(s[1..], w, j)
    ensures OccursAt(s, w, j + 1) && Offset(s, j + 1) == |Utf8(s[0])| + Offset(s[1..], j)
  {
    hide Utf8;
    assert s[j + 1..j + 1 + |w|] == s[1..][j..j + |w|];
    assert s[..j + 1][1..] == s[1..][..j];
  }

  /** UTF-8 is self-synchronising: an ASCII word found at some byte stands at a character. */
  lemma {:induction false} ByteMatchIsCharMatch(s: Text, w: Text, b: nat) returns (i: nat)
    requires IsWord(w) && BytesOccurAt(Bytes(s), Bytes(w), b)
    ensures OccursAt(s, w, i) && Offset(s, i) == b
  {
    hide Utf8;
    if b == 0 {
      PrefixOfBytes(s, w);
      i := 0;
    } else {
      NoMatchInsideCharacter(s, w, b);
      i := ByteMatchIsCharMatch(s[1..], w, b - |Utf8(s[0])|);
      OneCharacterFurther(s, w, i);
      i := i + 1;
    }
  }

  lemma CharMatchIsByteMatch(s: Text, w: Text, i: nat)
    requires OccursAt(s, w, i)
    ensures BytesOccurAt(Bytes(s), Bytes(w), Offset(s, i))
    ensures Offset(s, i) + |Bytes(w)| == Offset(s, i + |w|)
  {
    hide Utf8;
    BytesSplit(s, i);
    BytesSplit(s[i..], |w|);
    assert s[i..][..|w|] == w;
    BytesAppend(s[..i], w);
    assert s[..i + |w|] == s[..i] + w;
  }

  lemma StandaloneSameAt(s: Text, w: Text, i: nat)
    requires OccursAt(s, w, i)
    ensures Standalone(s, w, i) <==> StandaloneBytes(Bytes(s), Bytes(w), Offset(s, i))
  {
    hide Utf8, Bytes;
    CharMatchIsByteMatch(s, w, i);
    OffsetOfStart(s);
    if i > 0 { ByteBefore(s, i); }
    if i + |w| < |s| { ByteAfter(s, i + |w|); } else { OffsetOfEnd(s); }
  }

  lemma OffsetOfStart(s: Text)
    ensures Offset(s, 0) == 0
  {
    assert s[..0] == [];
  }

  lemma OffsetOfEnd(s: Text)
    ensures Offset(s, |s|) == |Bytes(s)|
  {
    assert s[..|s|] == s;
  }

  lemma ByteScanAgrees(s: Text, w: Text)
    requires IsWord(w)
    ensures HasWord(s, w) <==> exists b: nat :: StandaloneBytes(Bytes(s), Bytes(w), b)
  {
    hide Utf8;
    if HasWord(s, w) {
      var i: nat :| Standalone(s, w, i);
      StandaloneSameAt(s, w, i);
    }
    if exists b: nat :: StandaloneBytes(Bytes(s), Bytes(w), b) {
      var b: nat :| StandaloneBytes(Bytes(s), Bytes(w), b);
      var i := ByteMatchIsCharMatch(s, w, b);
      StandaloneSameAt(s, w, i);
    }
  }

  // ---- Slices at a match ----

  /** The string slice from byte `b` on is `t`; there is none when `b` is not the start of a
      character. */
  ghost predicate SliceIs(s: seq<nat>, b: nat, t: Text) {
    b <= |s| && Bytes(t) == s[b..]
  }

  lemma SliceAtOffset(s: Text, i: nat, t: Text)
    requires i <= |s|
    ensures SliceIs(Bytes(s), Offset(s, i), t) <==> t == s[i..]
  {
    hide Utf8, Bytes;
    BytesSplit(s, i);
    assert Bytes(s)[Offset(s, i)..] == Bytes(s[i..]);
    if Bytes(t) == Bytes(s[i..]) {
      BytesInjective(t, s[i..]);
    }
  }

  lemma OffsetIncreases(s: Text, i: nat, j: nat)
    requires i < j <= |s|
    ensures Offset(s, i) < Offset(s, j)
  {
    hide Utf8, Bytes;
    assert s[..j][..i] == s[..i];
    ByteAfter(s[..j], i);
  }

  /** Offsets found in the lower-cased text are offsets in the text itself. */
  lemma OffsetLower(s: Text, i: nat)
    requires i <= |s|
    ensures Offset(Lower(s), i) == Offset(s, i)
  {
    ByteLengthLower(s[..i]);
    assert Lower(s)[..i] == Lower(s[..i]);
  }

  lemma Keywords()
    ensures IsWord("call") && |Bytes("call")| == 4
    ensures IsWord("limit") && |Bytes("limit")| == 5
  {
    AsciiBytes("call");
    AsciiBytes("limit");
  }

  ghost predicate CallsGraphBytes(lower: seq<nat>, b: nat) {
    exists t :: SliceIs(lower, b + 4, t) && StartsWith(TrimStart(t), "graph.")
  }

  ghost predicate OnlyGraphCallsBytes(lower: seq<nat>) {
    forall b: nat | StandaloneBytes(lower, Bytes("call"), b) :: CallsGraphBytes(lower, b)
  }

  lemma CallsGraphSameAt(s: Text, i: nat)
    requires OccursAt(s, "call", i)
    ensures CallsGraph(s, i) <==> CallsGraphBytes(Bytes(s), Offset(s, i))
  {
    hide Utf8, Bytes, TrimStart, StartsWith;
    Keywords();
    CharMatchIsByteMatch(s, "call", i);
    SliceAtOffset(s, i + 4, s[i + 4..]);
    var after := Offset(s, i) + 4;
    forall t | SliceIs(Bytes(s), after, t) ensures t == s[i + 4..] {
      SliceAtOffset(s, i + 4, t);
    }
  }

  /** The CALL scan over bytes decides what the one over characters decides. */
  lemma CallScanAgrees(s: Text)
    ensures OnlyGraphCalls(s) <==> OnlyGraphCallsBytes(Bytes(s))
  {
    hide Utf8, Bytes, CallsGraph, CallsGraphBytes, StandaloneBytes;
    Keywords();
    if OnlyGraphCalls(s) {
      forall b: nat | StandaloneBytes(Bytes(s), Bytes("call"), b)
        ensures CallsGraphBytes(Bytes(s), b)
      {
        var i := StandaloneAtByte(s, "call", b);
        CallsGraphSameAt(s, i);
      }
    }
    if OnlyGraphCallsBytes(Bytes(s)) {
      forall i: nat | Standalone(s, "call", i) ensures CallsGraph(s, i) {
        StandaloneIsOccurrence(s, "call", i);
        StandaloneSameAt(s, "call", i);
        CallsGraphSameAt(s, i);
      }
    }
  }

  lemma StandaloneIsOccurrence(s: Text, w: Text, i: nat)
    requires Standalone(s, w, i)
    ensures OccursAt(s, w, i)
  {
  }

  /** The character position of a standalone word found at byte `b`. */
  lemma StandaloneAtByte(s: Text, w: Text, b: nat) returns (i: nat)
    requires IsWord(w) && StandaloneBytes(Bytes(s), Bytes(w), b)
    ensures Standalone(s, w, i) && OccursAt(s, w, i) && Offset(s, i) == b
  {
    hide Utf8, Bytes;
    i := ByteMatchIsCharMatch(s, w, b);
    StandaloneSameAt(s, w, i);
  }

  /** What the program finds after a LIMIT at byte `b`: it slices the query at an offset
      found in the lower-cased text. */
  ghost predicate FaultAtByte(query: seq<nat>, b: nat, fault: Option<Refusal>) {
    exists t :: SliceIs(query, b + 5, t) && Fault(NumberIn(t)) == fault
  }

  lemma FaultSameAt(query: Text, i: nat, fault: Option<Refusal>)
    requires OccursAt(Lower(query), "limit", i)
    ensures LimitFault(query, i) == fault <==>
      FaultAtByte(Bytes(query), Offset(Lower(query), i), fault)
  {
    hide Utf8, Bytes, NumberIn, Fault;
    Keywords();
    CharMatchIsByteMatch(Lower(query), "limit", i);
    OffsetLower(query, i + 5);
    SliceAtOffset(query, i + 5, query[i + 5..]);
    var after := Offset(Lower(query), i) + 5;
    forall t | SliceIs(Bytes(query), after, t) ensures t == query[i + 5..] {
      SliceAtOffset(query, i + 5, t);
    }
  }

  ghost predicate LimitOkAtByte(lower: seq<nat>, query: seq<nat>, b: nat) {
    StandaloneBytes(lower, Bytes("limit"), b) ==> FaultAtByte(query, b, None)
  }

  ghost predicate FirstBadLimitAtByte(lower: seq<nat>, query: seq<nat>, b: nat) {
    && !LimitOkAtByte(lower, query, b)
    && forall c: nat | c < b :: LimitOkAtByte(lower, query, c)
  }

  lemma LimitOkSameAt(query: Text, i: nat)
    requires i <= |query|
    ensures LimitOk(query, i) <==>
      LimitOkAtByte(Bytes(Lower(query)), Bytes(query), Offset(query, i))
  {
    hide Utf8, Bytes, Standalone, StandaloneBytes, FaultAtByte, LimitFault;
    var lower := Lower(query);
    Keywords();
    OffsetLower(query, i);
    if Standalone(lower, "limit", i) {
      StandaloneIsOccurrence(lower, "limit", i);
      StandaloneSameAt(lower, "limit", i);
      FaultSameAt(query, i, None);
    } else if StandaloneBytes(Bytes(lower), Bytes("limit"), Offset(query, i)) {
      var j := StandaloneAtByte(lower, "limit", Offset(query, i));
      SameOffset(lower, i, j);
    }
  }

  lemma SameOffset(s: Text, i: nat, j: nat)
    requires i <= |s| && j <= |s|
    ensures Offset(s, i) < Offset(s, j) <==> i < j
    ensures Offset(s, i) == Offset(s, j) <==> i == j
  {
    hide Offset;
    if i < j {
      OffsetIncreases(s, i, j);
    } else if j < i {
      OffsetIncreases(s, j, i);
    }
  }

  /** A bad LIMIT at a byte is a bad LIMIT at a character. */
  lemma BadLimitAtByte(query: Text, b: nat) returns (i: nat)
    requires !LimitOkAtByte(Bytes(Lower(query)), Bytes(query), b)
    ensures i <= |query| && Offset(query, i) == b && !LimitOk(query, i)
  {
    hide Utf8, Bytes, FaultAtByte, StandaloneBytes;
    Keywords();
    i := StandaloneAtByte(Lower(query), "limit", b);
    OffsetLower(query, i);
    LimitOkSameAt(query, i);
  }

  /** The LIMIT scan over bytes stops at the same first bad LIMIT as the one over characters,
      and reports the same fault (`FaultSameAt`). */
  lemma LimitScanAgrees(query: Text, i: nat)
    requires i <= |query|
    ensures FirstBadLimit(query, i) <==>
      FirstBadLimitAtByte(Bytes(Lower(query)), Bytes(query), Offset(query, i))
    ensures (forall j: nat :: LimitOk(query, j)) <==>
      (forall b: nat :: LimitOkAtByte(Bytes(Lower(query)), Bytes(query), b))
  {
    hide Utf8, Bytes, LimitOkAtByte, Offset;
    var lower, bytes := Bytes(Lower(query)), Bytes(query);
    LimitOkSameAt(query, i);
    forall j: nat | j <= |query|
      ensures LimitOk(query, j) <==> LimitOkAtByte(lower, bytes, Offset(query, j))
      ensures Offset(query, j) < Offset(query, i) <==> j < i
    {
      LimitOkSameAt(query, j);
      SameOffset(query, j, i);
    }
    forall b: nat | !LimitOkAtByte(lower, bytes, b)
      ensures exists j: nat :: j <= |query| && Offset(query, j) == b && !LimitOk(query, j)
    {
      var j := BadLimitAtByte(query, b);
    }
  }
}
