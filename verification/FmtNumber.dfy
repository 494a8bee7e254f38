/** `fmt_n`: a number printed with a comma between groups of three digits. */
module FmtNumber {
  import opened Decimals

  /** A digit string cut into groups of three from the right. */
  function Grouped(s: string): string {
    if |s| <= 3 then s else Grouped(s[..|s| - 3]) + "," + s[|s| - 3..]
  }

  function Reverse(s: string): (r: string)
    ensures |r| == |s|
  {
    seq(|s|, (i: nat) requires i < |s| => s[|s| - 1 - i])
  }

  lemma GroupedStep(head: string, tail: string)
    requires head != "" && |tail| == 3
    ensures Grouped(head + tail) == Grouped(head) + "," + tail
  {
    var s := head + tail;
    assert s[..|s| - 3] == head && s[|s| - 3..] == tail;
  }

  lemma GroupedShort(s: string)
    requires |s| <= 3
    ensures Grouped(s) == s
  {
  }

  /** One more digit on the left starts a new group when the others fill theirs. */
  lemma {:induction false} GroupedLeft(c: char, t: string)
    ensures Grouped([c] + t) ==
      if |t| > 0 && |t| % 3 == 0 then [c] + "," + Grouped(t) else [c] + Grouped(t)
  {
    hide Grouped;
    if |t| <= 2 {
      GroupedShort(t);
      GroupedShort([c] + t);
    } else {
      var head, tail := t[..|t| - 3], t[|t| - 3..];
      assert t == head + tail;
      assert [c] + t == ([c] + head) + tail;
      GroupedStep([c] + head, tail);
      if head == "" {
        assert t == tail && [c] + head == [c];
        GroupedShort([c]);
        GroupedShort(t);
      } else {
        GroupedStep(head, tail);
        GroupedLeft(c, head);
      }
    }
  }

  lemma ReversePush(s: string, c: char)
    ensures Reverse(s + [c]) == [c] + Reverse(s)
  {
  }

  lemma ReverseAt(s: string, i: nat)
    requires i < |s|
    ensures s[|s| - i - 1..] == [Reverse(s)[i]] + s[|s| - i..]
  {
  }

  /** The loop collects the digits from the right and reverses the result at the end. */
  method FmtN(n: nat) returns (r: string)
    ensures r == Grouped(Decimal(n))
  {
    hide *;
    var s := Decimal(n);
    var out := "";
    GroupedShort("");
    assert Reverse("") == "" && s[|s|..] == "";
    for i := 0 to |s|
      invariant Reverse(out) == Grouped(s[|s| - i..])
    {
      var ch := Reverse(s)[i];
      ReverseAt(s, i);
      GroupedLeft(ch, s[|s| - i..]);
      if i > 0 && i % 3 == 0 {
        ReversePush(out, ',');
        out := out + [','];
      }
      ReversePush(out, ch);
      out := out + [ch];
      assert Reverse(out) == Grouped(s[|s| - i - 1..]);
    }
    assert s[0..] == s;
    r := Reverse(out);
  }

  function WithoutCommas(s: string): string {
    if s == "" then ""
    else WithoutCommas(s[..|s| - 1]) + (if s[|s| - 1] == ',' then "" else [s[|s| - 1]])
  }

  lemma {:induction false} WithoutCommasAppend(a: string, b: string)
    ensures WithoutCommas(a + b) == WithoutCommas(a) + WithoutCommas(b)
  {
    if b == "" {
      assert a + b == a;
    } else {
      WithoutCommasAppend(a, b[..|b| - 1]);
      assert (a + b)[..|a + b| - 1] == a + b[..|b| - 1];
    }
  }

  lemma {:induction false} DigitsStay(s: string)
    requires AllDigits(s)
    ensures WithoutCommas(s) == s
  {
    if s != "" {
      DigitsStay(s[..|s| - 1]);
    }
  }

  lemma {:induction false} UngroupGrouped(s: string)
    requires AllDigits(s)
    ensures WithoutCommas(Grouped(s)) == s
  {
    hide Grouped, WithoutCommas;
    if |s| <= 3 {
      GroupedShort(s);
      DigitsStay(s);
    } else {
      var head, tail := s[..|s| - 3], s[|s| - 3..];
      assert s == head + tail;
      GroupedStep(head, tail);
      UngroupGrouped(head);
      DigitsStay(tail);
      WithoutCommasAppend(Grouped(head) + ",", tail);
      WithoutCommasAppend(Grouped(head), ",");
      NoComma();
    }
  }

  lemma NoComma()
    ensures WithoutCommas(",") == ""
  {
    assert ","[..0] == "";
  }

  /** Without its commas the printed number reads back as the number. */
  lemma PrintedReadsBack(n: nat)
    ensures WithoutCommas(Grouped(Decimal(n))) == Decimal(n)
    ensures Value(Decimal(n)) == n
  {
    UngroupGrouped(Decimal(n));
    ValueOfDecimal(n);
  }

  predicate CommaPlaces(g: string) {
    forall k | 0 <= k < |g| :: g[k] == ',' <==> (|g| - k) % 4 == 0
  }

  lemma CommaPlacesStep(h: string, tail: string)
    requires CommaPlaces(h) && AllDigits(tail) && |tail| == 3
    ensures CommaPlaces(h + "," + tail)
  {
    var g := h + "," + tail;
    forall k | 0 <= k < |g| ensures g[k] == ',' <==> (|g| - k) % 4 == 0 {
      if k < |h| {
        assert g[k] == h[k] && |g| - k == |h| - k + 4;
      } else if k > |h| {
        assert g[k] == tail[k - |h| - 1];
      }
    }
  }

  /** Commas stand exactly at every fourth place from the right, and never lead. */
  lemma {:induction false} CommasExactly(s: string)
    requires AllDigits(s) && s != ""
    ensures |Grouped(s)| == |s| + (|s| - 1) / 3
    ensures CommaPlaces(Grouped(s)) && Grouped(s)[0] == s[0]
  {
    hide Grouped;
    if |s| <= 3 {
      GroupedShort(s);
    } else {
      var head, tail := s[..|s| - 3], s[|s| - 3..];
      assert s == head + tail;
      GroupedStep(head, tail);
      CommasExactly(head);
      hide CommaPlaces;
      CommaPlacesStep(Grouped(head), tail);
    }
  }
}
