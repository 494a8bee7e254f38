/** Text as the guard sees it: a Rust `str` is a sequence of Unicode scalar values.
    Positions count characters; `GuardBytes` shows that the guard's scans over UTF-8
    bytes decide the same thing. */
module GuardText {
  import opened Wrappers
  import opened Decimals

  type Text = seq<char>

  /** The characters with the Unicode property White_Space, which `trim` strips. */
  predicate IsSpace(c: char) {
    var n := c as int;
    || 0x09 <= n <= 0x0D || n == 0x20 || n == 0x85 || n == 0xA0 || n == 0x1680
    || 0x2000 <= n <= 0x200A || n == 0x2028 || n == 0x2029 || n == 0x202F
    || n == 0x205F || n == 0x3000
  }

  predicate IsIdent(c: char) {
    'a' <= c <= 'z' || 'A' <= c <= 'Z' || '0' <= c <= '9' || c == '_'
  }

  function LowerChar(c: char): char {
    if 'A' <= c <= 'Z' then (c as int + 32) as char else c
  }

  /** `to_ascii_lowercase` */
  function Lower(s: Text): (r: Text)
    ensures |r| == |s|
    ensures forall i | 0 <= i < |s| :: r[i] == LowerChar(s[i])
  {
    seq(|s|, i requires 0 <= i < |s| => LowerChar(s[i]))
  }

  function TrimStart(s: Text): Text {
    if s != [] && IsSpace(s[0]) then TrimStart(s[1..]) else s
  }

  function TrimEnd(s: Text): Text {
    if s != [] && IsSpace(s[|s| - 1]) then TrimEnd(s[..|s| - 1]) else s
  }

  function Trim(s: Text): Text {
    TrimEnd(TrimStart(s))
  }

  function LeadingDigits(s: Text): (d: Text)
    ensures AllDigits(d)
  {
    if s != [] && IsDigit(s[0]) then [s[0]] + LeadingDigits(s[1..]) else []
  }

  function Utf8(c: char): seq<nat> {
    var n := c as int;
    if n < 0x80 then [n]
    else if n < 0x800 then [0xC0 + n / 64, 0x80 + n % 64]
    else if n < 0x1_0000 then [0xE0 + n / 4096, 0x80 + n / 64 % 64, 0x80 + n % 64]
    else [0xF0 + n / 262144, 0x80 + n / 4096 % 64, 0x80 + n / 64 % 64, 0x80 + n % 64]
  }

  function Bytes(s: Text): seq<nat> {
    if s == [] then [] else Utf8(s[0]) + Bytes(s[1..])
  }

  /** `str::len` */
  function ByteLength(s: Text): nat {
    |Bytes(s)|
  }

  predicate OccursAt(s: Text, w: Text, i: nat) {
    i + |w| <= |s| && s[i..i + |w|] == w
  }

  /** `s[from..].find(w)`, as a position in `s` */
  function FindFrom(s: Text, w: Text, from: nat): (r: Option<nat>)
    requires from <= |s|
    ensures r.Some? ==> from <= r.value && OccursAt(s, w, r.value)
    ensures r.Some? ==> forall k | from <= k < r.value :: !OccursAt(s, w, k)
    ensures r.None? ==> forall k: nat | from <= k :: !OccursAt(s, w, k)
    decreases |s| - from
  {
    if OccursAt(s, w, from) then Some(from)
    else if from == |s| then None
    else FindFrom(s, w, from + 1)
  }

  predicate BoundaryBefore(s: Text, i: nat) {
    i == 0 || (i <= |s| && !IsIdent(s[i - 1]))
  }

  predicate BoundaryAfter(s: Text, i: nat) {
    i >= |s| || !IsIdent(s[i])
  }

  /** `w` occurs at `i` as a whole word: no identifier character touches it. */
  predicate Standalone(s: Text, w: Text, i: nat) {
    OccursAt(s, w, i) && BoundaryBefore(s, i) && BoundaryAfter(s, i + |w|)
  }

  ghost predicate HasWord(s: Text, w: Text) {
    exists i: nat :: Standalone(s, w, i)
  }

  predicate IsWord(w: Text) {
    w != [] && forall i | 0 <= i < |w| :: IsIdent(w[i])
  }

  predicate StartsWith(s: Text, p: Text) {
    |p| <= |s| && s[..|p|] == p
  }

  lemma NoStandaloneInsideMatch(s: Text, w: Text, at: nat, i: nat)
    requires IsWord(w) && OccursAt(s, w, at) && at < i < at + |w|
    ensures !Standalone(s, w, i)
  {
    assert s[i - 1] == s[at..at + |w|][i - 1 - at];
  }

  /** Why the scans may skip a whole word length after each match: between `from` and
      the end of the next match, only the match itself can be a whole word. */
  lemma SkipLosesNothing(s: Text, w: Text, from: nat, at: nat)
    requires IsWord(w) && from <= at && OccursAt(s, w, at)
    requires forall k | from <= k < at :: !OccursAt(s, w, k)
    ensures forall i: nat | from <= i < at + |w| && i != at :: !Standalone(s, w, i)
  {
    forall i: nat | at < i < at + |w| ensures !Standalone(s, w, i) {
      NoStandaloneInsideMatch(s, w, at, i);
    }
  }
}
